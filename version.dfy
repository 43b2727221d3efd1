/**
 * Version strings (core/src/version.rs): parsing `M.m.p[-pre[+build]]`,
 * comparison, printing, and the update-check state of `VersionManager`.
 *
 * The format resembles Semantic Versioning 2.0.0, but the code departs from
 * its section 11: pre-release tags compare as whole strings (so "alpha.10"
 * sorts before "alpha.2"), build metadata is never compared, and a text
 * after a second '-' is dropped. The model follows the code.
 */
module Versions {
  import opened Wrappers
  import opened Text

  /** Rust's `u32`. */
  newtype u32 = x: int | 0 <= x < 0x1_0000_0000

  /** `Version`. */
  datatype Version = Version(major: u32, minor: u32, patch: u32, preRelease: Option<string>, build: Option<string>)

  /** `Version::new`: a release without build metadata. */
  function NewVersion(major: u32, minor: u32, patch: u32): (v: Version)
    ensures v.major == major && v.minor == minor && v.patch == patch
    ensures v.preRelease.None? && v.build.None?
  {
    Version(major, minor, patch, None, None)
  }

  /** `str::parse::<u32>`. */
  function ParseU32(s: string): (r: Option<u32>)
    ensures r.Some? <==> ParseUnsigned(s, U32_BOUND).Some?
    ensures r.Some? ==> r.value as nat == ParseUnsigned(s, U32_BOUND).value
  {
    match ParseUnsigned(s, U32_BOUND)
    case Some(n) => Some(n as u32)
    case None => None
  }

  /**
   * `Version::parse`: the text before the first '-' must have at least
   * three '.'-separated parts, the first three being u32 numerals (any
   * further parts are ignored). After the first '-', the pre-release tag
   * runs to the first '+' and the build to the next '+'; a third '-'-part
   * starting with '+' replaces the build. Everything else is dropped.
   */
  function Parse(s: string): (r: Option<Version>)
    ensures r.Some? ==>
              var numbers := Split(Split(s, '-')[0], '.');
              && |numbers| >= 3
              && ParseU32(numbers[0]) == Some(r.value.major)
              && ParseU32(numbers[1]) == Some(r.value.minor)
              && ParseU32(numbers[2]) == Some(r.value.patch)
    ensures r.Some? ==> (r.value.preRelease.Some? <==> '-' in s)
    ensures r.Some? && '-' !in s ==> r.value.build.None?
    ensures var numbers := Split(Split(s, '-')[0], '.');
            |numbers| >= 3 && ParseU32(numbers[0]).Some? && ParseU32(numbers[1]).Some? && ParseU32(numbers[2]).Some? ==>
              r.Some?
  {
    SplitOnlyWhenPresent(s, '-');
    FromParts(Split(s, '-'))
  }

  /**
   * What `Version::parse` makes of the '-'-parts of its input: the numbers
   * from the first, the pre-release tag and the build from the second, a
   * replacement build from the third.
   */
  function FromParts(parts: seq<string>): (r: Option<Version>)
    requires |parts| >= 1
    ensures r.Some? ==> (r.value.preRelease.Some? <==> |parts| > 1)
    ensures r.Some? && |parts| == 1 ==> r.value.build.None?
  {
    var numbers := Split(parts[0], '.');
    if |numbers| < 3 then None
    else
      match (ParseU32(numbers[0]), ParseU32(numbers[1]), ParseU32(numbers[2]))
      case (Some(major), Some(minor), Some(patch)) =>
        var preBuild := if |parts| > 1 then Split(parts[1], '+') else [];
        var preRelease := if |parts| > 1 then Some(preBuild[0]) else None;
        var build := if |parts| > 1 && |preBuild| > 1 then Some(preBuild[1]) else None;
        var build' := if |parts| > 2 && |parts[2]| > 0 && parts[2][0] == '+' then Some(parts[2][1..]) else build;
        Some(Version(major, minor, patch, preRelease, build'))
      case _ => None
  }

  /** Only the first three '-'-parts matter, and the third only when it starts with '+'. */
  lemma {:induction false} FromPartsIgnoresRest(parts: seq<string>)
    requires |parts| >= 3
    ensures FromParts(parts) == FromParts(parts[..3])
    ensures |parts[2]| == 0 || parts[2][0] != '+' ==> FromParts(parts) == FromParts(parts[..2])
  {
    assert parts[..3][..2] == parts[..2];
  }

  /**
   * After the numbers and a '-', the pre-release tag runs to the first '+'
   * and the build from there to the next '+'; a text after a second '+'
   * is dropped.
   */
  lemma {:induction false} ParseTagAndBuild(core: string, pre: string, build: string, extra: string)
    requires '-' !in core && Parse(core).Some?
    requires '-' !in pre && '+' !in pre && '-' !in build && '+' !in build && '-' !in extra
    requires extra == [] || extra[0] == '+'
    ensures Parse(core + "-" + pre + "+" + build + extra) ==
              Some(Parse(core).value.(preRelease := Some(pre), build := Some(build)))
  {
    var x := build + extra;
    var tag := pre + ['+'] + x;
    var s := core + ['-'] + tag;
    PlusTag(core, pre, build, extra);
    assert '-' !in tag;
    SplitWithout(core, '-');
    TwoParts(core, tag);
    SplitAfterFirst(pre, '+', x);
    SplitFirstPiece(build, '+', extra);
    TagParts(core, tag, Split(s, '-'));
  }

  /** `core-pre+build extra` is `core`, '-', then the part `pre+build extra`. */
  lemma {:induction false} PlusTag(core: string, pre: string, build: string, extra: string)
    ensures core + "-" + pre + "+" + build + extra == core + ['-'] + (pre + ['+'] + (build + extra))
  {
  }

  /** With exactly two '-'-parts, the second gives the pre-release tag and the build. */
  lemma {:induction false} TagParts(core: string, tag: string, parts: seq<string>)
    requires parts == [core, tag] && FromParts([core]).Some? && |Split(tag, '+')| >= 2
    ensures FromParts(parts) ==
              Some(FromParts([core]).value.(preRelease := Some(Split(tag, '+')[0]), build := Some(Split(tag, '+')[1])))
  {
  }

  /** Splitting `core-tag-third rest` on '-', with rest empty or starting with '-'. */
  lemma {:induction false} ThreeParts(core: string, tag: string, third: string, rest: string)
    requires '-' !in core && '-' !in tag && '-' !in third
    requires rest == [] || rest[0] == '-'
    ensures var parts := Split(core + "-" + tag + "-" + third + rest, '-');
            |parts| >= 3 && parts[0] == core && parts[1] == tag && parts[2] == third
  {
    var x := third + rest;
    var y := tag + ['-'] + x;
    DashDash(core, tag, third, rest);
    SplitAfterFirst(core, '-', y);
    SplitAfterFirst(tag, '-', x);
    SplitFirstPiece(third, '-', rest);
  }

  /** `core-tag-third rest` is `core`, '-', then `tag-third rest`. */
  lemma {:induction false} DashDash(core: string, tag: string, third: string, rest: string)
    ensures core + "-" + tag + "-" + third + rest == core + ['-'] + (tag + ['-'] + (third + rest))
  {
  }

  /** Splitting `core-tag` on '-'. */
  lemma {:induction false} TwoParts(core: string, tag: string)
    requires '-' !in core && '-' !in tag
    ensures Split(core + "-" + tag, '-') == [core, tag]
  {
    SplitAfterFirst(core, '-', tag);
    SplitWithout(tag, '-');
  }

  /**
   * A third '-'-part that starts with '+' supplies the build, replacing
   * any build given after the pre-release tag; anything after a further
   * '-' is dropped.
   */
  lemma {:induction false} ParseThirdPartBuild(core: string, tag: string, build: string, rest: string)
    requires '-' !in core && '-' !in tag && '-' !in build
    requires rest == [] || rest[0] == '-'
    requires Parse(core + "-" + tag).Some?
    ensures Parse(core + "-" + tag + "-+" + build + rest) ==
              Some(Parse(core + "-" + tag).value.(build := Some(build)))
  {
    var third := ['+'] + build;
    PlusDash(core + "-" + tag, build, rest);
    ThreeParts(core, tag, third, rest);
    TwoParts(core, tag);
    var parts := Split(core + "-" + tag + "-" + third + rest, '-');
    assert parts[..2] == [core, tag];
    FromPartsThirdBuild(parts);
    assert parts[2][1..] == build;
  }

  /** `a-+b rest` is `a`, '-', then the part `+b`, then rest. */
  lemma {:induction false} PlusDash(a: string, b: string, rest: string)
    ensures a + "-+" + b + rest == a + "-" + (['+'] + b) + rest
  {
  }

  /** A third '-'-part starting with '+' sets the build of what the first two give. */
  lemma {:induction false} FromPartsThirdBuild(parts: seq<string>)
    requires |parts| >= 3 && |parts[2]| > 0 && parts[2][0] == '+'
    ensures FromParts(parts).Some? <==> FromParts(parts[..2]).Some?
    ensures FromParts(parts).Some? ==> FromParts(parts) == Some(FromParts(parts[..2]).value.(build := Some(parts[2][1..])))
  {
  }

  /**
   * A third '-'-part that does not start with '+' is dropped, and so is
   * everything after it.
   */
  lemma {:induction false} ParseThirdPartDropped(core: string, tag: string, third: string, rest: string)
    requires '-' !in core && '-' !in tag && '-' !in third
    requires third == [] || third[0] != '+'
    requires rest == [] || rest[0] == '-'
    ensures Parse(core + "-" + tag + "-" + third + rest) == Parse(core + "-" + tag)
  {
    ThreeParts(core, tag, third, rest);
    TwoParts(core, tag);
    var parts := Split(core + "-" + tag + "-" + third + rest, '-');
    FromPartsIgnoresRest(parts);
    assert parts[..2] == [core, tag];
  }

  /** A string splits into more than one piece exactly when it contains the separator. */
  lemma {:induction false} SplitOnlyWhenPresent(s: string, c: char)
    ensures |Split(s, c)| > 1 <==> c in s
  {
    var i := Find(s, c);
    if i == |s| {
      assert s[..i] == s;
      SplitWithout(s, c);
    } else {
      assert s[i] == c;
      assert |Split(s, c)| == 1 + |Split(s[i + 1..], c)|;
    }
  }

  /** `Display for Version`: `M.m.p`, then `-pre` if any, then `+build` if any. */
  function ToString(v: Version): string {
    NumbersToString(v)
    + (match v.preRelease case Some(p) => "-" + p case None => "")
    + (match v.build case Some(b) => "+" + b case None => "")
  }

  /** `M.m.p`. */
  function NumbersToString(v: Version): string {
    NatToString(v.major as nat) + "." + NatToString(v.minor as nat) + "." + NatToString(v.patch as nat)
  }

  /** A numeral has no separator characters in it. */
  lemma {:induction false} NumeralHasNo(n: nat, c: char)
    requires !IsDigit(c)
    ensures c !in NatToString(n)
  {
    var s := NatToString(n);
    forall i | 0 <= i < |s|
      ensures s[i] != c
    {
      assert IsDigit(s[i]);
    }
  }

  /** `M.m.p` has no '-' or '+' and splits on '.' into its three numerals. */
  lemma {:induction false} NumbersShape(v: Version)
    ensures '-' !in NumbersToString(v) && '+' !in NumbersToString(v)
    ensures Split(NumbersToString(v), '.') ==
              [NatToString(v.major as nat), NatToString(v.minor as nat), NatToString(v.patch as nat)]
  {
    var a, b, c := NatToString(v.major as nat), NatToString(v.minor as nat), NatToString(v.patch as nat);
    NumeralHasNo(v.major as nat, '.');
    NumeralHasNo(v.minor as nat, '.');
    NumeralHasNo(v.patch as nat, '.');
    NumeralHasNo(v.major as nat, '-');
    NumeralHasNo(v.minor as nat, '-');
    NumeralHasNo(v.patch as nat, '-');
    NumeralHasNo(v.major as nat, '+');
    NumeralHasNo(v.minor as nat, '+');
    NumeralHasNo(v.patch as nat, '+');
    assert NumbersToString(v) == a + ['.'] + (b + ['.'] + c);
    SplitAfterFirst(a, '.', b + ['.'] + c);
    SplitAfterFirst(b, '.', c);
    SplitWithout(c, '.');
  }

  /** The numbers of a printed version parse back. */
  lemma {:induction false} NumbersParse(v: Version)
    ensures ParseU32(NatToString(v.major as nat)) == Some(v.major)
    ensures ParseU32(NatToString(v.minor as nat)) == Some(v.minor)
    ensures ParseU32(NatToString(v.patch as nat)) == Some(v.patch)
  {
    ParseNatToString(v.major as nat, U32_BOUND);
    ParseNatToString(v.minor as nat, U32_BOUND);
    ParseNatToString(v.patch as nat, U32_BOUND);
  }

  /** Tags that survive printing and parsing: no '-' and no '+'. */
  predicate PlainTag(t: Option<string>) {
    t.Some? ==> '-' !in t.value && '+' !in t.value
  }

  /**
   * Printing then parsing gives the version back, provided its tags hold
   * no '-' or '+' and it does not have build metadata without a
   * pre-release tag.
   */
  lemma {:induction false} ParseToString(v: Version)
    requires PlainTag(v.preRelease) && PlainTag(v.build)
    requires v.preRelease.Some? || v.build.None?
    ensures Parse(ToString(v)) == Some(v)
  {
    if v.preRelease.None? {
      ParseToStringRelease(v);
    } else if v.build.None? {
      ParseToStringPreRelease(v);
    } else {
      ParseToStringBuild(v);
    }
  }

  /** The round trip of `M.m.p`. */
  lemma {:induction false} ParseToStringRelease(v: Version)
    requires v.preRelease.None? && v.build.None?
    ensures Parse(ToString(v)) == Some(v)
  {
    NumbersShape(v);
    NumbersParse(v);
    assert ToString(v) == NumbersToString(v);
    SplitWithout(NumbersToString(v), '-');
  }

  /** The round trip of `M.m.p-pre`. */
  lemma {:induction false} ParseToStringPreRelease(v: Version)
    requires v.preRelease.Some? && v.build.None? && PlainTag(v.preRelease)
    ensures Parse(ToString(v)) == Some(v)
  {
    NumbersShape(v);
    NumbersParse(v);
    var numbers := NumbersToString(v);
    var p := v.preRelease.value;
    assert ToString(v) == numbers + ['-'] + p;
    SplitAfterFirst(numbers, '-', p);
    SplitWithout(p, '-');
    SplitWithout(p, '+');
  }

  /** The round trip of `M.m.p-pre+build`. */
  lemma {:induction false} ParseToStringBuild(v: Version)
    requires v.preRelease.Some? && v.build.Some? && PlainTag(v.preRelease) && PlainTag(v.build)
    ensures Parse(ToString(v)) == Some(v)
  {
    NumbersShape(v);
    NumbersParse(v);
    var numbers := NumbersToString(v);
    var p := v.preRelease.value;
    var b := v.build.value;
    var rest := p + ['+'] + b;
    assert ToString(v) == numbers + ['-'] + rest;
    assert '-' !in rest;
    SplitAfterFirst(numbers, '-', rest);
    SplitWithout(rest, '-');
    SplitAfterFirst(p, '+', b);
    SplitWithout(b, '+');
  }

  /**
   * The printed form of a version with build metadata but no pre-release
   * tag, `M.m.p+build`, does not parse: the build is read as part of the
   * patch number.
   */
  lemma {:induction false} BuildWithoutPreReleaseIsUnreadable(v: Version)
    requires v.preRelease.None? && v.build.Some?
    requires '-' !in v.build.value && '.' !in v.build.value
    ensures Parse(ToString(v)) == None
  {
    var c := NatToString(v.patch as nat);
    var third := c + ['+'] + v.build.value;
    BuildJoinsPatch(v);
    NumeralThenPlus(c, v.build.value);
    assert ParseU32(third).None?;
  }

  /** `M.m.p+build` has no '-' and its third '.'-part is `p+build`. */
  lemma {:induction false} BuildJoinsPatch(v: Version)
    requires v.preRelease.None? && v.build.Some?
    requires '-' !in v.build.value && '.' !in v.build.value
    ensures var s := ToString(v);
            && Split(s, '-') == [s]
            && |Split(s, '.')| == 3
            && Split(s, '.')[2] == NatToString(v.patch as nat) + ['+'] + v.build.value
  {
    var a, b, c := NatToString(v.major as nat), NatToString(v.minor as nat), NatToString(v.patch as nat);
    var third := c + ['+'] + v.build.value;
    BuildOnlyText(v);
    SplitWithout(ToString(v), '-');
    NumeralHasNo(v.major as nat, '.');
    NumeralHasNo(v.minor as nat, '.');
    NumeralHasNo(v.patch as nat, '.');
    SplitAfterFirst(a, '.', b + ['.'] + third);
    SplitAfterFirst(b, '.', third);
    SplitWithout(third, '.');
  }

  /** The text of `M.m.p+build`. */
  lemma {:induction false} BuildOnlyText(v: Version)
    requires v.preRelease.None? && v.build.Some?
    requires '-' !in v.build.value
    ensures var a, b, c := NatToString(v.major as nat), NatToString(v.minor as nat), NatToString(v.patch as nat);
            ToString(v) == a + ['.'] + (b + ['.'] + (c + ['+'] + v.build.value))
    ensures '-' !in ToString(v)
  {
    var a, b, c := NatToString(v.major as nat), NatToString(v.minor as nat), NatToString(v.patch as nat);
    NumeralHasNo(v.major as nat, '-');
    NumeralHasNo(v.minor as nat, '-');
    NumeralHasNo(v.patch as nat, '-');
    assert ToString(v) == (a + "." + b + "." + c) + ("+" + v.build.value);
  }

  /** A numeral followed by '+' and more text is not a numeral. */
  lemma {:induction false} NumeralThenPlus(c: string, rest: string)
    requires |c| > 0 && AllDigits(c)
    ensures ParseUnsigned(c + ['+'] + rest, U32_BOUND).None?
  {
    var t := c + ['+'] + rest;
    assert t[0] == c[0] && t[0] != '+';
    assert t[|c|] == '+' && !IsDigit(t[|c|]);
  }

  /**
   * The evidently intended parser: build metadata is split off at the
   * first '+' before the pre-release tag is looked for, so `M.m.p+build`
   * is read too. Otherwise as Parse.
   */
  function ParseIntended(s: string): (r: Option<Version>)
    ensures r.Some? ==> (r.value.build.Some? <==> '+' in s)
  {
    var main := Split(s, '+');
    var build := if |main| > 1 then Some(main[1]) else None;
    var parts := Split(main[0], '-');
    var numbers := Split(parts[0], '.');
    if |numbers| < 3 then None
    else
      match (ParseU32(numbers[0]), ParseU32(numbers[1]), ParseU32(numbers[2]))
      case (Some(major), Some(minor), Some(patch)) =>
        var preRelease := if |parts| > 1 then Some(parts[1]) else None;
        SplitOnlyWhenPresent(s, '+');
        Some(Version(major, minor, patch, preRelease, build))
      case _ => None
  }

  /** Every version with plain tags prints to a string the intended parser reads back. */
  lemma {:induction false} ParseIntendedToString(v: Version)
    requires PlainTag(v.preRelease) && PlainTag(v.build)
    ensures ParseIntended(ToString(v)) == Some(v)
  {
    var numbers := NumbersToString(v);
    NumbersShape(v);
    NumbersParse(v);
    var head := numbers + (match v.preRelease case Some(p) => "-" + p case None => "");
    assert '+' !in head;
    match v.preRelease {
      case None =>
        assert head == numbers;
        SplitWithout(numbers, '-');
      case Some(p) =>
        assert head == numbers + ['-'] + p;
        SplitAfterFirst(numbers, '-', p);
        SplitWithout(p, '-');
    }
    match v.build {
      case None =>
        assert ToString(v) == head;
        SplitWithout(head, '+');
      case Some(b) =>
        assert ToString(v) == head + ['+'] + b;
        SplitAfterFirst(head, '+', b);
        SplitWithout(b, '+');
    }
  }

  /** `std::cmp::Ordering`. */
  datatype Ordering = Less | Equal | Greater
  {
    /** `Ordering::reverse`. */
    function Reverse(): Ordering {
      match this
      case Less => Greater
      case Equal => Equal
      case Greater => Less
    }
  }

  /** `u32::cmp`. */
  function CompareNumbers(a: u32, b: u32): (o: Ordering)
    ensures o == Less <==> a < b
    ensures o == Equal <==> a == b
  {
    if a < b then Less else if a == b then Equal else Greater
  }

  /** `String::cmp`: lexicographic, a proper prefix first. */
  function CompareStrings(a: string, b: string): Ordering
  {
    if a == [] && b == [] then Equal
    else if a == [] then Less
    else if b == [] then Greater
    else if a[0] < b[0] then Less
    else if a[0] > b[0] then Greater
    else CompareStrings(a[1..], b[1..])
  }

  lemma {:induction false} CompareStringsReverse(a: string, b: string)
    ensures CompareStrings(b, a) == CompareStrings(a, b).Reverse()
    decreases |a|
  {
    if a != [] && b != [] && a[0] == b[0] {
      CompareStringsReverse(a[1..], b[1..]);
    }
  }

  lemma {:induction false} CompareStringsEqual(a: string, b: string)
    ensures CompareStrings(a, b) == Equal <==> a == b
    decreases |a|
  {
    if a != [] && b != [] && a[0] == b[0] {
      CompareStringsEqual(a[1..], b[1..]);
      assert a == [a[0]] + a[1..] && b == [b[0]] + b[1..];
    }
  }

  lemma {:induction false} CompareStringsTransitive(a: string, b: string, c: string)
    requires CompareStrings(a, b) == Less && CompareStrings(b, c) == Less
    ensures CompareStrings(a, c) == Less
    decreases |a|
  {
    if a != [] && b != [] && c != [] && a[0] == b[0] && b[0] == c[0] {
      CompareStringsTransitive(a[1..], b[1..], c[1..]);
    }
  }

  /**
   * `Version::compare`: by major, minor and patch; on equal numbers a
   * release is above any pre-release, pre-release tags compare as whole
   * strings, and build metadata is ignored.
   */
  function Compare(a: Version, b: Version): (o: Ordering)
    ensures a.major != b.major ==> o == CompareNumbers(a.major, b.major)
    ensures a.major == b.major && a.minor != b.minor ==> o == CompareNumbers(a.minor, b.minor)
    ensures a.major == b.major && a.minor == b.minor && a.patch != b.patch ==> o == CompareNumbers(a.patch, b.patch)
    ensures (a.major, a.minor, a.patch) == (b.major, b.minor, b.patch) ==>
              o == match (a.preRelease, b.preRelease)
                   case (None, Some(_)) => Greater
                   case (Some(_), None) => Less
                   case (Some(x), Some(y)) => CompareStrings(x, y)
                   case (None, None) => Equal
  {
    match CompareNumbers(a.major, b.major)
    case Less => Less
    case Greater => Greater
    case Equal =>
      match CompareNumbers(a.minor, b.minor)
      case Less => Less
      case Greater => Greater
      case Equal =>
        match CompareNumbers(a.patch, b.patch)
        case Less => Less
        case Greater => Greater
        case Equal =>
          match (a.preRelease, b.preRelease)
          case (None, Some(_)) => Greater
          case (Some(_), None) => Less
          case (Some(x), Some(y)) => CompareStrings(x, y)
          case (None, None) => Equal
  }

  /** `is_greater_than`. */
  predicate IsGreaterThan(a: Version, b: Version) {
    Compare(a, b) == Greater
  }

  /** `is_less_than`. */
  predicate IsLessThan(a: Version, b: Version) {
    Compare(a, b) == Less
  }

  /** `is_equal_to`. */
  predicate IsEqualTo(a: Version, b: Version) {
    Compare(a, b) == Equal
  }

  /** Swapping the operands reverses the comparison. */
  lemma {:induction false} CompareReverse(a: Version, b: Version)
    ensures Compare(b, a) == Compare(a, b).Reverse()
  {
    if a.preRelease.Some? && b.preRelease.Some? {
      CompareStringsReverse(a.preRelease.value, b.preRelease.value);
    }
  }

  /** a > b exactly when b < a, and exactly one of <, =, > holds. */
  lemma {:induction false} GreaterIffLess(a: Version, b: Version)
    ensures IsGreaterThan(a, b) <==> IsLessThan(b, a)
    ensures IsEqualTo(a, b) <==> IsEqualTo(b, a)
    ensures IsLessThan(a, b) || IsEqualTo(a, b) || IsGreaterThan(a, b)
    ensures !(IsLessThan(a, b) && IsEqualTo(a, b)) && !(IsLessThan(a, b) && IsGreaterThan(a, b))
    ensures !(IsEqualTo(a, b) && IsGreaterThan(a, b))
  {
    CompareReverse(a, b);
  }

  /** Two versions compare equal exactly when they differ at most in build metadata. */
  lemma {:induction false} EqualIgnoresBuild(a: Version, b: Version)
    ensures IsEqualTo(a, b) <==> a.(build := None) == b.(build := None)
  {
    if a.preRelease.Some? && b.preRelease.Some? {
      CompareStringsEqual(a.preRelease.value, b.preRelease.value);
    }
  }

  /** The order is transitive. */
  lemma {:induction false} LessTransitive(a: Version, b: Version, c: Version)
    requires IsLessThan(a, b) && IsLessThan(b, c)
    ensures IsLessThan(a, c)
  {
    if (a.major, a.minor, a.patch) == (b.major, b.minor, b.patch) == (c.major, c.minor, c.patch)
       && a.preRelease.Some? && b.preRelease.Some? && c.preRelease.Some? {
      CompareStringsTransitive(a.preRelease.value, b.preRelease.value, c.preRelease.value);
    }
  }

  /** Pre-release tags compare as whole strings, not field by field. */
  lemma {:induction false} PreReleaseComparedAsText()
    ensures IsLessThan(Version(1, 0, 0, Some("alpha.10"), None), Version(1, 0, 0, Some("alpha.2"), None))
  {
    assert "alpha.10"[..6] == "alpha.2"[..6];
    var x, y := "alpha.10", "alpha.2";
    assert CompareStrings(x, y) == CompareStrings(x[6..], y[6..]) by {
      assert x[1..] == "lpha.10" && y[1..] == "lpha.2";
      assert x[2..] == "pha.10" && y[2..] == "pha.2";
      assert x[3..] == "ha.10" && y[3..] == "ha.2";
      assert x[4..] == "a.10" && y[4..] == "a.2";
      assert x[5..] == ".10" && y[5..] == ".2";
    }
  }

  /** The error reported by a failed update lookup (`io::Error`). */
  datatype LookupError = LookupError(message: string)

  /**
   * `Version::check_for_updates`: the update lookup. The source has no
   * remote lookup yet and always reports that there is no newer version.
   */
  function LookupUpdate(current: Version): (r: Result<Option<Version>, LookupError>)
    ensures r == Ok(None)
  {
    Ok(None)
  }

  /** `VersionManager`. */
  class VersionManager {
    const currentVersion: Version
    var latestVersion: Option<Version>
    var updateAvailable: bool

    /** An update is announced only for a recorded version newer than the current one. */
    ghost predicate Valid()
      reads this
    {
      updateAvailable ==> latestVersion.Some? && IsGreaterThan(latestVersion.value, currentVersion)
    }

    /** `VersionManager::new`, with `Version::current()` (from the build) as input. */
    constructor (current: Version)
      ensures Valid()
      ensures currentVersion == current && latestVersion.None? && !updateAvailable
    {
      currentVersion := current;
      latestVersion := None;
      updateAvailable := false;
    }

    /**
     * `check_for_updates`, given what the lookup reported: a lookup error
     * is passed on with nothing changed; no newer version clears the flag;
     * a reported version is recorded and the flag says whether it is newer.
     */
    method CheckForUpdates(reported: Result<Option<Version>, LookupError>) returns (r: Result<bool, LookupError>)
      requires Valid()
      modifies this
      ensures Valid()
      ensures reported.Err? ==>
                r == Err(reported.error) && latestVersion == old(latestVersion) && updateAvailable == old(updateAvailable)
      ensures reported == Ok(None) ==>
                r == Ok(false) && !updateAvailable && latestVersion == old(latestVersion)
      ensures reported.Ok? && reported.value.Some? ==>
                && latestVersion == reported.value
                && updateAvailable == IsGreaterThan(reported.value.value, currentVersion)
                && r == Ok(updateAvailable)
    {
      match reported
      case Err(e) =>
        r := Err(e);
      case Ok(None) =>
        updateAvailable := false;
        r := Ok(false);
      case Ok(Some(latest)) =>
        latestVersion := Some(latest);
        updateAvailable := IsGreaterThan(latest, currentVersion);
        r := Ok(updateAvailable);
    }
  }

  /** `init`: a manager for the current version, after one update check. */
  method Init(current: Version) returns (r: Result<VersionManager, LookupError>)
    ensures r.Ok? && fresh(r.value) && r.value.Valid()
    ensures r.value.currentVersion == current && !r.value.updateAvailable
  {
    var manager := new VersionManager(current);
    var checked := manager.CheckForUpdates(LookupUpdate(current));
    match checked
    case Err(e) =>
      r := Err(e);
    case Ok(_) =>
      r := Ok(manager);
  }
}
