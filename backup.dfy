/**
 * Database backups (core/src/storage/backup.rs). A backup is a copy of the
 * database file named `backup_<seconds>.db` in the backup directory, next to
 * a JSON metadata file `<name>.meta`. Listing reads the directory, rotation
 * deletes the oldest backups beyond the configured maximum, and restoring
 * copies a backup over the target after taking a pre-restore backup of it.
 *
 * The backup directory is a map from file name to entry, the rest of the
 * file system a map from path to entry. JSON encoding and decoding of the
 * metadata is an input pair of functions; the clock is a parameter.
 */
module Backup {
  import opened Wrappers
  import opened Text
  import opened Sorting

  /** The `io::ErrorKind`s the backup code produces or propagates. */
  datatype ErrorKind = NotFound | InvalidData | Other

  /** An `io::Error`; its message text is not modelled. */
  datatype IoError = IoError(kind: ErrorKind)

  /** `BackupMetadata`; the u64 timestamp (seconds) and size are naturals. */
  datatype BackupMetadata = BackupMetadata(
    timestamp: nat,
    description: string,
    size: nat,
    version: string,
    backupType: string)

  /** A directory entry: a file with its bytes, or a sub-directory. */
  datatype Entry = File(bytes: seq<bv8>) | Directory

  /**
   * serde_json for `BackupMetadata`: what `to_string_pretty` writes, and
   * what `read_to_string` followed by `from_str` makes of a file's bytes
   * (None for bytes that are not UTF-8 JSON metadata).
   */
  datatype MetaCodec = MetaCodec(
    encode: BackupMetadata -> seq<bv8>,
    decode: seq<bv8> -> Option<BackupMetadata>)

  /** The codec reads back what it writes. */
  ghost predicate Faithful(codec: MetaCodec) {
    forall m :: codec.decode(codec.encode(m)) == Some(m)
  }

  /** The description the fallback metadata carries. */
  const MISSING_DESCRIPTION := "Unknown (metadata missing)"

  /** The backup count kept by a new manager. */
  const DEFAULT_MAX_BACKUPS: nat := 10

  /** The file system the manager works on. */
  class Disk {
    /** The backup directory, by file name. */
    var backupDir: map<string, Entry>
    /** Every other file, by path. */
    var files: map<string, Entry>

    constructor (backupDir: map<string, Entry>, files: map<string, Entry>)
      ensures this.backupDir == backupDir && this.files == files
    {
      this.backupDir := backupDir;
      this.files := files;
    }
  }

  // ---------------------------------------------------------------------
  // File names

  /** `Path::extension() == "db"`: a ".db" suffix after a non-empty stem. */
  predicate HasDbExtension(name: string) {
    |name| > 3 && name[|name| - 3..] == ".db"
  }

  /** `format!("backup_{}.db", timestamp)`. */
  function BackupFileName(ts: nat): (name: string)
    ensures HasDbExtension(name)
    ensures |name| >= 11 && name[..7] == "backup_" && name[7..|name| - 3] == NatToString(ts)
  {
    var name := "backup_" + NatToString(ts) + ".db";
    assert name[7..|name| - 3] == NatToString(ts);
    name
  }

  /** `format!("{}.meta", backup_filename)`: the metadata file of a backup. */
  function MetaName(name: string): (m: string)
    ensures |m| == |name| + 5 && m[..|name|] == name
    ensures !HasDbExtension(m)
  {
    var m := name + ".meta";
    assert m[|m| - 1] == 'a';
    m
  }

  /** Distinct backups have distinct metadata files. */
  lemma {:induction false} MetaNameInjective(a: string, b: string)
    ensures MetaName(a) == MetaName(b) <==> a == b
  {
    if MetaName(a) == MetaName(b) {
      assert a == MetaName(a)[..|a|];
    }
  }

  /** A metadata file name never names a backup, which ends in ".db". */
  lemma {:induction false} MetaNameIsNotBackup(a: string, b: string)
    requires HasDbExtension(b)
    ensures MetaName(a) != b
  {
    assert b[|b| - 1] == 'b';
  }

  /**
   * `strip_prefix("backup_")`, `strip_suffix(".db")`, then `parse::<u64>`:
   * the timestamp a backup file name carries, if any.
   */
  function TimestampOfName(name: string): (r: Option<nat>)
    ensures r.Some? ==> r.value < U64_BOUND && HasDbExtension(name) && |name| >= 10 && name[..7] == "backup_"
  {
    if |name| >= 10 && name[..7] == "backup_" && name[|name| - 3..] == ".db"
    then ParseUnsigned(name[7..|name| - 3], U64_BOUND)
    else None
  }

  /** The name of a backup gives its timestamp back. */
  lemma {:induction false} BackupFileNameRoundTrip(ts: nat)
    requires ts < U64_BOUND
    ensures TimestampOfName(BackupFileName(ts)) == Some(ts)
  {
    ParseNatToString(ts, U64_BOUND);
  }

  // ---------------------------------------------------------------------
  // Metadata

  /**
   * `read_metadata`: the parsed `.meta` file when there is one; without
   * one, metadata recovered from a `backup_<u64>.db` name (the backup's
   * size, or 0 when it is missing); otherwise NotFound. A `.meta` that is
   * a directory or does not decode is an error.
   */
  function ReadMetadata(dir: map<string, Entry>, name: string, codec: MetaCodec): (r: Result<BackupMetadata, IoError>)
    ensures MetaName(name) !in dir ==> (r.Ok? <==> TimestampOfName(name).Some?)
    ensures MetaName(name) !in dir && r.Err? ==> r.error.kind == NotFound
    ensures MetaName(name) !in dir && r.Ok? ==>
              && r.value.timestamp == TimestampOfName(name).value
              && r.value.description == MISSING_DESCRIPTION
              && r.value.version == "unknown" && r.value.backupType == "unknown"
              && r.value.size == (if name in dir && dir[name].File? then |dir[name].bytes| else 0)
    ensures MetaName(name) in dir ==>
              (r.Ok? <==> dir[MetaName(name)].File? && codec.decode(dir[MetaName(name)].bytes).Some?)
    ensures MetaName(name) in dir && r.Ok? ==> codec.decode(dir[MetaName(name)].bytes) == Some(r.value)
  {
    var meta := MetaName(name);
    if meta !in dir then
      match TimestampOfName(name)
      case Some(ts) =>
        var size := if name in dir && dir[name].File? then |dir[name].bytes| else 0;
        Ok(BackupMetadata(ts, MISSING_DESCRIPTION, size, "unknown", "unknown"))
      case None => Err(IoError(NotFound))
    else
      match dir[meta]
      case Directory => Err(IoError(Other))
      case File(bytes) =>
        match codec.decode(bytes)
        case Some(m) => Ok(m)
        case None => Err(IoError(InvalidData))
  }

  /** A backup whose `.meta` is lost is still listed, with the timestamp of its name. */
  lemma {:induction false} FallbackKeepsTimestamp(dir: map<string, Entry>, ts: nat, codec: MetaCodec)
    requires ts < U64_BOUND && MetaName(BackupFileName(ts)) !in dir
    ensures ReadMetadata(dir, BackupFileName(ts), codec).Ok?
    ensures ReadMetadata(dir, BackupFileName(ts), codec).value.timestamp == ts
  {
    BackupFileNameRoundTrip(ts);
  }

  /** `save_metadata` then `read_metadata` gives the metadata back. */
  lemma {:induction false} SavedMetadataReadsBack(dir: map<string, Entry>, name: string, m: BackupMetadata, codec: MetaCodec)
    requires Faithful(codec)
    ensures ReadMetadata(dir[MetaName(name) := File(codec.encode(m))], name, codec) == Ok(m)
  {
  }

  /** The metadata of a backup depends only on the backup's file and its `.meta` file. */
  lemma {:induction false} ReadMetadataFrame(d1: map<string, Entry>, d2: map<string, Entry>, name: string, codec: MetaCodec)
    requires name in d1 <==> name in d2
    requires name in d1 ==> d1[name] == d2[name]
    requires MetaName(name) in d1 <==> MetaName(name) in d2
    requires MetaName(name) in d1 ==> d1[MetaName(name)] == d2[MetaName(name)]
    ensures ReadMetadata(d1, name, codec) == ReadMetadata(d2, name, codec)
  {
  }

  // ---------------------------------------------------------------------
  // Listing

  /** One element of `list_backups`' result: a backup and its metadata. */
  datatype BackupEntry = BackupEntry(name: string, meta: BackupMetadata)

  /** The sort key of the listing. */
  function TimestampKey(b: BackupEntry): real {
    b.meta.timestamp as real
  }

  /** The file names of a listing, in order. */
  function NamesOf(bs: seq<BackupEntry>): (names: seq<string>)
    ensures |names| == |bs| && forall i :: 0 <= i < |bs| ==> names[i] == bs[i].name
  {
    seq(|bs|, i requires 0 <= i < |bs| => bs[i].name)
  }

  /** `list_backups` lists a name when it is a file with the db extension and readable metadata. */
  ghost predicate Listed(dir: map<string, Entry>, name: string, codec: MetaCodec) {
    && name in dir
    && dir[name].File?
    && HasDbExtension(name)
    && ReadMetadata(dir, name, codec).Ok?
  }

  /** The backups `list_backups` finds. */
  ghost function BackupNames(dir: map<string, Entry>, codec: MetaCodec): set<string> {
    set name | name in dir.Keys && Listed(dir, name, codec)
  }

  /** The timestamp of a listed backup. */
  ghost function Stamp(dir: map<string, Entry>, name: string, codec: MetaCodec): nat
    requires Listed(dir, name, codec)
  {
    ReadMetadata(dir, name, codec).value.timestamp
  }

  /**
   * What `list_backups` returns: every listed backup once, each with its
   * metadata, newest first.
   */
  ghost predicate IsListing(dir: map<string, Entry>, codec: MetaCodec, bs: seq<BackupEntry>) {
    && Distinct(NamesOf(bs))
    && (forall i :: 0 <= i < |bs| ==>
          Listed(dir, bs[i].name, codec) && bs[i].meta == ReadMetadata(dir, bs[i].name, codec).value)
    && (forall name :: name in dir && Listed(dir, name, codec) ==> name in NamesOf(bs))
    && SortedDesc(bs, TimestampKey)
  }

  /** A listing has exactly the listed backups, so it is as long as there are backups. */
  lemma {:induction false} ListingSize(dir: map<string, Entry>, codec: MetaCodec, bs: seq<BackupEntry>)
    requires IsListing(dir, codec, bs)
    ensures BackupNames(dir, codec) == set n | n in NamesOf(bs)
    ensures |BackupNames(dir, codec)| == |bs|
  {
    DistinctCard(NamesOf(bs));
  }

  /** Two listings of one directory list the same backups with the same metadata. */
  lemma {:induction false} ListingsAgree(dir: map<string, Entry>, codec: MetaCodec, a: seq<BackupEntry>, b: seq<BackupEntry>)
    requires IsListing(dir, codec, a) && IsListing(dir, codec, b)
    ensures forall e :: e in a <==> e in b
  {
    forall e | e in a ensures e in b {
      var i :| 0 <= i < |a| && a[i] == e;
      assert e.name in NamesOf(a);
      assert e.name in NamesOf(b);
      var j :| 0 <= j < |b| && NamesOf(b)[j] == e.name;
      assert b[j] == e;
    }
    forall e | e in b ensures e in a {
      var i :| 0 <= i < |b| && b[i] == e;
      assert e.name in NamesOf(a);
      var j :| 0 <= j < |a| && NamesOf(a)[j] == e.name;
      assert a[j] == e;
    }
  }

  /** The elements of a sequence without repetitions: as many as its length. */
  lemma {:induction false} DistinctCard<T>(s: seq<T>)
    requires Distinct(s)
    ensures |set x | x in s| == |s|
  {
    if s != [] {
      var p := s[..|s| - 1];
      DistinctCard(p);
      assert (set x | x in s) == (set x | x in p) + {s[|s| - 1]};
      assert s[|s| - 1] !in p;
    }
  }

  /** In a sequence without repetitions, each element occurs at most once. */
  lemma {:induction false} DistinctMultiplicity<T>(s: seq<T>)
    requires Distinct(s)
    ensures forall x :: multiset(s)[x] <= 1
  {
    if s != [] {
      var p := s[..|s| - 1];
      DistinctMultiplicity(p);
      assert s == p + [s[|s| - 1]];
      assert s[|s| - 1] !in p;
    }
  }

  /** A permutation of a sequence without repetitions has none. */
  lemma {:induction false} DistinctPermutation<T>(a: seq<T>, b: seq<T>)
    requires Distinct(a) && multiset(a) == multiset(b)
    ensures Distinct(b)
  {
    DistinctMultiplicity(a);
    forall i, j | 0 <= i < j < |b| ensures b[i] != b[j] {
      assert b == b[..j] + [b[j]] + b[j + 1..];
      assert multiset(b)[b[j]] == multiset(b[..j])[b[j]] + 1 + multiset(b[j + 1..])[b[j]];
      assert b[j] !in multiset(b[..j]);
      assert b[..j][i] == b[i];
    }
  }

  /** The backups found by the directory scan: each listed once, with its metadata, and all of them. */
  ghost predicate Found(dir: map<string, Entry>, codec: MetaCodec, found: seq<BackupEntry>) {
    && Distinct(NamesOf(found))
    && (forall i :: 0 <= i < |found| ==>
          Listed(dir, found[i].name, codec) && found[i].meta == ReadMetadata(dir, found[i].name, codec).value)
    && (forall name :: name in dir && Listed(dir, name, codec) ==> name in NamesOf(found))
  }

  /** Entries are determined by their names, so a scan has no repeated entry. */
  lemma {:induction false} FoundDistinct(dir: map<string, Entry>, codec: MetaCodec, found: seq<BackupEntry>)
    requires Found(dir, codec, found)
    ensures Distinct(found)
  {
    forall i, j | 0 <= i < j < |found| ensures found[i] != found[j] {
      assert NamesOf(found)[i] != NamesOf(found)[j];
    }
  }

  /** A permutation of a scan is a scan. */
  lemma {:induction false} FoundPermutation(dir: map<string, Entry>, codec: MetaCodec, found: seq<BackupEntry>, bs: seq<BackupEntry>)
    requires Found(dir, codec, found) && multiset(found) == multiset(bs)
    ensures Found(dir, codec, bs)
  {
    forall i | 0 <= i < |bs|
      ensures Listed(dir, bs[i].name, codec) && bs[i].meta == ReadMetadata(dir, bs[i].name, codec).value
    {
      assert bs[i] in multiset(found);
    }
    forall name | name in dir && Listed(dir, name, codec) ensures name in NamesOf(bs) {
      var k :| 0 <= k < |found| && NamesOf(found)[k] == name;
      assert found[k] in multiset(bs);
      var j :| 0 <= j < |bs| && bs[j] == found[k];
      assert NamesOf(bs)[j] == name;
    }
    FoundDistinct(dir, codec, found);
    DistinctPermutation(found, bs);
    forall i, j | 0 <= i < j < |bs| ensures NamesOf(bs)[i] != NamesOf(bs)[j] {
      assert bs[i] != bs[j];
    }
  }

  /** Sorting the backups found, in whatever order, gives a listing. */
  lemma {:induction false} SortedListing(dir: map<string, Entry>, codec: MetaCodec, found: seq<BackupEntry>)
    requires Found(dir, codec, found)
    ensures IsListing(dir, codec, SortDesc(found, TimestampKey))
  {
    FoundPermutation(dir, codec, found, SortDesc(found, TimestampKey));
  }

  // ---------------------------------------------------------------------
  // Deletion and rotation

  /**
   * The directory after `delete_backup(name)`: the backup file is removed
   * unless it is missing or a directory; its `.meta` goes with it when it
   * is a file. A `.meta` that is a directory stays (and the call fails).
   */
  function AfterDelete(dir: map<string, Entry>, name: string): (r: map<string, Entry>)
    ensures forall k :: k in r ==> k in dir && r[k] == dir[k]
    ensures forall k :: k in dir && k != name && k != MetaName(name) ==> k in r
    ensures !(name in dir && dir[name].File?) ==> r == dir
    ensures name in dir && dir[name].File? ==>
              name !in r && (MetaName(name) in dir && dir[MetaName(name)].File? ==> MetaName(name) !in r)
    ensures MetaName(name) in dir && dir[MetaName(name)].Directory? ==> MetaName(name) in r
  {
    if name !in dir || dir[name].Directory? then dir
    else
      var d := dir - {name};
      if MetaName(name) in d && d[MetaName(name)].File? then d - {MetaName(name)} else d
  }

  /** k is the file or the `.meta` file of one of the backups bs[from..]. */
  ghost predicate BelongsTo(bs: seq<BackupEntry>, from: nat, k: string) {
    exists i :: from <= i < |bs| && (k == bs[i].name || k == MetaName(bs[i].name))
  }

  /**
   * cur is start with the backups bs[from..] deleted: nothing added or
   * changed, those backups and their `.meta` files gone, nothing else gone.
   */
  ghost predicate DeletedFrom(start: map<string, Entry>, cur: map<string, Entry>, bs: seq<BackupEntry>, from: nat) {
    && (forall k :: k in cur ==> k in start && cur[k] == start[k])
    && (forall i :: from <= i < |bs| ==> bs[i].name !in cur && MetaName(bs[i].name) !in cur)
    && (forall k :: k in start && k !in cur ==> BelongsTo(bs, from, k))
  }

  /** Names of distinct listed backups and their `.meta` files never collide. */
  lemma {:induction false} ListedNamesApart(dir: map<string, Entry>, codec: MetaCodec, bs: seq<BackupEntry>, i: nat, k: string)
    requires IsListing(dir, codec, bs) && i < |bs|
    requires k == bs[i].name || k == MetaName(bs[i].name)
    ensures forall l :: 0 <= l < |bs| && l != i ==> k != bs[l].name && k != MetaName(bs[l].name)
  {
    forall l | 0 <= l < |bs| && l != i ensures k != bs[l].name && k != MetaName(bs[l].name) {
      assert NamesOf(bs)[i] != NamesOf(bs)[l];
      MetaNameIsNotBackup(bs[i].name, bs[l].name);
      MetaNameIsNotBackup(bs[l].name, bs[i].name);
      MetaNameInjective(bs[i].name, bs[l].name);
    }
  }

  /** Deleting one more listed backup, older ones first, extends the deletion. */
  lemma {:induction false} DeleteStep(start: map<string, Entry>, cur: map<string, Entry>, next: map<string, Entry>,
                   codec: MetaCodec, bs: seq<BackupEntry>, j: nat)
    requires IsListing(start, codec, bs) && j < |bs|
    requires DeletedFrom(start, cur, bs, j + 1)
    requires next == AfterDelete(cur, bs[j].name)
    ensures DeletedFrom(start, next, bs, j)
  {
    var b := bs[j];
    ListedNamesApart(start, codec, bs, j, b.name);
    ListedNamesApart(start, codec, bs, j, MetaName(b.name));
    assert b.name in cur;
    assert MetaName(b.name) in cur ==> cur[MetaName(b.name)].File?;
    forall k | k in start && k !in next ensures BelongsTo(bs, j, k) {
      if k in cur {
        assert k == b.name || k == MetaName(b.name);
      } else {
        var i :| j + 1 <= i < |bs| && (k == bs[i].name || k == MetaName(bs[i].name));
      }
    }
  }

  /**
   * What `rotate_backups` guarantees about the backup directory, from the
   * directory before to the directory after: nothing is added or changed;
   * nothing is removed but backups and their `.meta` files; at most
   * `maxBackups` remain and no fewer; the ones kept are at least as new as
   * every one deleted, and keep their metadata; and a directory already
   * within the limit is left alone.
   */
  ghost predicate Rotated(before: map<string, Entry>, after: map<string, Entry>, maxBackups: nat, codec: MetaCodec) {
    var removed := BackupNames(before, codec) - BackupNames(after, codec);
    && (forall k :: k in after ==> k in before && after[k] == before[k])
    && (forall k :: k in before && k !in after ==>
          k in removed || (|k| >= 5 && k[..|k| - 5] in removed && k == MetaName(k[..|k| - 5])))
    && BackupNames(after, codec) <= BackupNames(before, codec)
    && (|BackupNames(before, codec)| <= maxBackups ==> after == before)
    && (|BackupNames(before, codec)| > maxBackups ==> |BackupNames(after, codec)| == maxBackups)
    && (forall k :: k in BackupNames(after, codec) ==>
          ReadMetadata(after, k, codec) == ReadMetadata(before, k, codec))
    && (forall k, d :: k in BackupNames(after, codec) && d in removed ==>
          Stamp(before, k, codec) >= Stamp(before, d, codec))
  }

  /** Leaving a directory within the limit alone is a rotation. */
  lemma {:induction false} RotatedWithinLimit(dir: map<string, Entry>, maxBackups: nat, codec: MetaCodec)
    requires |BackupNames(dir, codec)| <= maxBackups
    ensures Rotated(dir, dir, maxBackups, codec)
  {
  }

  /** The backups of the listing's head survive the deletion of its tail, metadata and all. */
  lemma {:induction false} HeadSurvives(before: map<string, Entry>, after: map<string, Entry>, codec: MetaCodec,
                     bs: seq<BackupEntry>, keep: nat, i: nat)
    requires IsListing(before, codec, bs) && DeletedFrom(before, after, bs, keep) && i < keep <= |bs|
    ensures Listed(after, bs[i].name, codec)
    ensures ReadMetadata(after, bs[i].name, codec) == ReadMetadata(before, bs[i].name, codec)
  {
    var n := bs[i].name;
    ListedNamesApart(before, codec, bs, i, n);
    ListedNamesApart(before, codec, bs, i, MetaName(n));
    assert !BelongsTo(bs, keep, n);
    assert !BelongsTo(bs, keep, MetaName(n));
    ReadMetadataFrame(before, after, n, codec);
  }

  /** Whatever is listed after deleting the listing's tail is in its head, with its old metadata. */
  lemma {:induction false} OnlyHeadListed(before: map<string, Entry>, after: map<string, Entry>, codec: MetaCodec,
                       bs: seq<BackupEntry>, keep: nat, n: string)
    requires IsListing(before, codec, bs) && DeletedFrom(before, after, bs, keep) && keep <= |bs|
    requires n in after && Listed(after, n, codec)
    ensures exists i :: 0 <= i < keep && bs[i].name == n
    ensures ReadMetadata(after, n, codec) == ReadMetadata(before, n, codec)
  {
    forall l | keep <= l < |bs| ensures MetaName(n) != bs[l].name && MetaName(n) != MetaName(bs[l].name) {
      MetaNameIsNotBackup(n, bs[l].name);
      MetaNameInjective(n, bs[l].name);
    }
    assert !BelongsTo(bs, keep, MetaName(n));
    ReadMetadataFrame(before, after, n, codec);
    assert Listed(before, n, codec);
    var i :| 0 <= i < |bs| && NamesOf(bs)[i] == n;
    assert i < keep;
  }

  /** After deleting the listing's tail from index keep on, the backups are its head. */
  lemma {:induction false} BackupsAfterDeletion(before: map<string, Entry>, after: map<string, Entry>, codec: MetaCodec,
                             bs: seq<BackupEntry>, keep: nat)
    requires IsListing(before, codec, bs) && DeletedFrom(before, after, bs, keep) && keep <= |bs|
    ensures BackupNames(after, codec) == set n | n in NamesOf(bs)[..keep]
    ensures |BackupNames(after, codec)| == keep
    ensures forall k :: k in BackupNames(after, codec) ==> ReadMetadata(after, k, codec) == ReadMetadata(before, k, codec)
  {
    var names := NamesOf(bs);
    HeadListedAfter(before, after, codec, bs, keep);
    ListedAfterInHead(before, after, codec, bs, keep);
    assert Distinct(names[..keep]);
    DistinctCard(names[..keep]);
  }

  /** Every backup of the listing's head is still listed after its tail is deleted. */
  lemma {:induction false} HeadListedAfter(before: map<string, Entry>, after: map<string, Entry>, codec: MetaCodec,
                        bs: seq<BackupEntry>, keep: nat)
    requires IsListing(before, codec, bs) && DeletedFrom(before, after, bs, keep) && keep <= |bs|
    ensures forall n :: n in NamesOf(bs)[..keep] ==> n in BackupNames(after, codec)
  {
    var names := NamesOf(bs);
    forall n | n in names[..keep] ensures n in BackupNames(after, codec) {
      var i :| 0 <= i < keep && names[..keep][i] == n;
      HeadSurvives(before, after, codec, bs, keep, i);
    }
  }

  /** Every backup listed after the tail is deleted is in the head, with its old metadata. */
  lemma {:induction false} ListedAfterInHead(before: map<string, Entry>, after: map<string, Entry>, codec: MetaCodec,
                          bs: seq<BackupEntry>, keep: nat)
    requires IsListing(before, codec, bs) && DeletedFrom(before, after, bs, keep) && keep <= |bs|
    ensures forall n :: n in BackupNames(after, codec) ==>
              n in NamesOf(bs)[..keep] && ReadMetadata(after, n, codec) == ReadMetadata(before, n, codec)
  {
    var names := NamesOf(bs);
    forall n | n in BackupNames(after, codec)
      ensures n in names[..keep]
      ensures ReadMetadata(after, n, codec) == ReadMetadata(before, n, codec)
    {
      OnlyHeadListed(before, after, codec, bs, keep, n);
      var i :| 0 <= i < keep && bs[i].name == n;
      assert names[..keep][i] == n;
    }
  }

  /** The backups kept by deleting the listing's tail are at least as new as those deleted. */
  lemma {:induction false} KeptAreNewer(before: map<string, Entry>, codec: MetaCodec, bs: seq<BackupEntry>, keep: nat, k: string, d: string)
    requires IsListing(before, codec, bs) && keep <= |bs|
    requires k in NamesOf(bs)[..keep] && d in NamesOf(bs) && d !in NamesOf(bs)[..keep]
    ensures Listed(before, k, codec) && Listed(before, d, codec)
    ensures Stamp(before, k, codec) >= Stamp(before, d, codec)
  {
    var names := NamesOf(bs);
    var i :| 0 <= i < keep && names[..keep][i] == k;
    var l :| 0 <= l < |bs| && names[l] == d;
    assert forall m :: 0 <= m < keep ==> names[..keep][m] == names[m];
    assert TimestampKey(bs[i]) >= TimestampKey(bs[l]);
  }

  /** Deleting the listing's tail removes only backups of the tail and their `.meta` files. */
  lemma {:induction false} RemovedAreTail(before: map<string, Entry>, after: map<string, Entry>, codec: MetaCodec,
                       bs: seq<BackupEntry>, keep: nat, k: string)
    requires DeletedFrom(before, after, bs, keep) && keep <= |bs|
    requires k in before && k !in after
    ensures || (k in NamesOf(bs) && k !in after)
            || (|k| >= 5 && k[..|k| - 5] in NamesOf(bs) && k[..|k| - 5] !in after && k == MetaName(k[..|k| - 5]))
  {
    var l :| keep <= l < |bs| && (k == bs[l].name || k == MetaName(bs[l].name));
    var n := bs[l].name;
    assert NamesOf(bs)[l] == n;
    if k != n {
      assert k[..|k| - 5] == n;
    }
  }

  /** Deleting the listed backups from index keep on is a rotation to keep backups. */
  lemma {:induction false} RotatedByDeletion(before: map<string, Entry>, after: map<string, Entry>, codec: MetaCodec,
                          bs: seq<BackupEntry>, keep: nat)
    requires IsListing(before, codec, bs) && keep < |bs|
    requires DeletedFrom(before, after, bs, keep)
    ensures Rotated(before, after, keep, codec)
  {
    var names := NamesOf(bs);
    BackupsAfterDeletion(before, after, codec, bs, keep);
    ListingSize(before, codec, bs);
    var kept := BackupNames(after, codec);
    var removed := BackupNames(before, codec) - kept;
    forall k, d | k in kept && d in removed
      ensures Stamp(before, k, codec) >= Stamp(before, d, codec)
    {
      KeptAreNewer(before, codec, bs, keep, k, d);
    }
    forall k | k in before && k !in after
      ensures k in removed || (|k| >= 5 && k[..|k| - 5] in removed && k == MetaName(k[..|k| - 5]))
    {
      RemovedAreTail(before, after, codec, bs, keep, k);
    }
  }

  // ---------------------------------------------------------------------
  // The manager

  /** The directory right after a backup's file and `.meta` file are written. */
  ghost function Written(dir: map<string, Entry>, name: string, bytes: seq<bv8>, m: BackupMetadata, codec: MetaCodec): (w: map<string, Entry>)
    ensures w.Keys == dir.Keys + {name, MetaName(name)}
    ensures w[name] == File(bytes) && w[MetaName(name)] == File(codec.encode(m))
    ensures forall k :: k in dir && k != name && k != MetaName(name) ==> w[k] == dir[k]
  {
    dir[name := File(bytes)][MetaName(name) := File(codec.encode(m))]
  }

  /** The source can be copied to the backup file name: it is a file, and the name is not a directory. */
  ghost predicate Copyable(dir: map<string, Entry>, files: map<string, Entry>, source: string, name: string) {
    source in files && files[source].File? && !(name in dir && dir[name].Directory?)
  }

  /** The destination of a copy can be created: it is not a directory. */
  ghost predicate Creatable(dir: map<string, Entry>, name: string) {
    !(name in dir && dir[name].Directory?)
  }

  /**
   * What `copy_file` leaves at a destination it could create: the source's
   * bytes, or an empty file when the source is a directory (opening a
   * directory succeeds, creating the destination truncates it, and only the
   * read then fails).
   */
  function CopiedEntry(source: Entry): Entry {
    if source.File? then source else File([])
  }

  /** A rotation only removes entries. */
  lemma {:induction false} RotationRemovesOnly(before: map<string, Entry>, after: map<string, Entry>, maxBackups: nat, codec: MetaCodec)
    requires Rotated(before, after, maxBackups, codec)
    ensures forall k :: k in after ==> k in before && after[k] == before[k]
  {
  }

  /**
   * After writing a backup and then only removing entries, every entry is
   * as it was or a file, every entry but the backup and its `.meta` is as
   * it was, and the backup, if it survived, holds the bytes written.
   */
  lemma {:induction false} WrittenThenRotated(before: map<string, Entry>, after: map<string, Entry>, name: string, bytes: seq<bv8>,
                           m: BackupMetadata, codec: MetaCodec)
    requires var w := Written(before, name, bytes, m, codec);
             forall k :: k in after ==> k in w && after[k] == w[k]
    ensures forall k :: k in after ==> (k in before && after[k] == before[k]) || after[k].File?
    ensures forall k :: k in after && k != name && k != MetaName(name) ==> k in before && after[k] == before[k]
    ensures name in after ==> after[name] == File(bytes)
  {
    var w := Written(before, name, bytes, m, codec);
    forall k | k in after ensures (k in before && after[k] == before[k]) || after[k].File? {
      assert after[k] == w[k];
    }
  }

  /** A freshly written backup is listed, with the metadata written for it. */
  lemma {:induction false} WrittenIsListed(dir: map<string, Entry>, name: string, bytes: seq<bv8>, m: BackupMetadata, codec: MetaCodec)
    requires Faithful(codec) && HasDbExtension(name)
    ensures name in BackupNames(Written(dir, name, bytes, m, codec), codec)
    ensures ReadMetadata(Written(dir, name, bytes, m, codec), name, codec) == Ok(m)
  {
    MetaNameIsNotBackup(name, name);
  }

  /**
   * After a rotation that keeps at least one backup, a backup strictly
   * newer than every other one survives.
   */
  lemma {:induction false} NewestSurvives(before: map<string, Entry>, after: map<string, Entry>, maxBackups: nat, codec: MetaCodec, n: string)
    requires Rotated(before, after, maxBackups, codec) && maxBackups >= 1
    requires n in BackupNames(before, codec)
    requires forall d :: d in BackupNames(before, codec) && d != n ==> Stamp(before, d, codec) < Stamp(before, n, codec)
    ensures n in BackupNames(after, codec)
  {
    if |BackupNames(before, codec)| > maxBackups {
      assert |BackupNames(after, codec)| >= 1;
      var k :| k in BackupNames(after, codec);
      if k != n {
        assert Stamp(before, k, codec) < Stamp(before, n, codec);
      }
    }
  }

  /** `BackupManager`: the backup directory's policy. */
  class BackupManager {
    /** `max_backups`. */
    var maxBackups: nat
    /** The metadata's JSON codec. */
    const codec: MetaCodec
    /** `CARGO_PKG_VERSION`, recorded in the metadata of each backup. */
    const version: string

    /** `BackupManager::new`: keeps 10 backups. */
    constructor (codec: MetaCodec, version: string)
      ensures maxBackups == DEFAULT_MAX_BACKUPS
      ensures this.codec == codec && this.version == version
    {
      maxBackups := DEFAULT_MAX_BACKUPS;
      this.codec := codec;
      this.version := version;
    }

    /** `set_max_backups`. */
    method SetMaxBackups(n: nat)
      modifies this
      ensures maxBackups == n
    {
      maxBackups := n;
    }

    /**
     * `list_backups`: reads the directory in an unspecified order, keeps the
     * files with the db extension whose metadata reads, and sorts them
     * newest first.
     */
    method ListBackups(disk: Disk) returns (bs: seq<BackupEntry>)
      ensures IsListing(disk.backupDir, codec, bs)
    {
      var dir := disk.backupDir;
      var rest := dir.Keys;
      var found: seq<BackupEntry> := [];
      while rest != {}
        invariant rest <= dir.Keys
        invariant Distinct(NamesOf(found))
        invariant forall i :: 0 <= i < |found| ==>
                    found[i].name !in rest && Listed(dir, found[i].name, codec)
                    && found[i].meta == ReadMetadata(dir, found[i].name, codec).value
        invariant forall name :: name in dir && name !in rest && Listed(dir, name, codec) ==> name in NamesOf(found)
        decreases rest
      {
        var name :| name in rest;
        if dir[name].File? && HasDbExtension(name) {
          var m := ReadMetadata(dir, name, codec);
          if m.Ok? {
            assert NamesOf(found + [BackupEntry(name, m.value)]) == NamesOf(found) + [name];
            found := found + [BackupEntry(name, m.value)];
          }
        }
        rest := rest - {name};
      }
      SortedListing(dir, codec, found);
      bs := SortDesc(found, TimestampKey);
    }

    /**
     * `delete_backup`: NotFound for a missing backup; otherwise removes the
     * backup file and then its `.meta` file if there is one.
     */
    method DeleteBackup(disk: Disk, name: string) returns (r: Result<(), IoError>)
      modifies disk
      ensures disk.backupDir == AfterDelete(old(disk.backupDir), name)
      ensures disk.files == old(disk.files)
      ensures name !in old(disk.backupDir) ==> r == Err(IoError(NotFound))
      ensures r.Ok? <==> name in old(disk.backupDir) && old(disk.backupDir)[name].File?
                         && !(MetaName(name) in old(disk.backupDir) && old(disk.backupDir)[MetaName(name)].Directory?)
    {
      if name !in disk.backupDir {
        return Err(IoError(NotFound));
      }
      if disk.backupDir[name].Directory? {
        // remove_file refuses a directory
        return Err(IoError(Other));
      }
      disk.backupDir := disk.backupDir - {name};
      var meta := MetaName(name);
      if meta in disk.backupDir {
        if disk.backupDir[meta].Directory? {
          return Err(IoError(Other));
        }
        disk.backupDir := disk.backupDir - {meta};
      }
      r := Ok(());
    }

    /**
     * The deletion loop of `rotate_backups`: walks the listing from its
     * oldest end and deletes all but the first keep backups, ignoring
     * failures.
     */
    method DeleteOldest(disk: Disk, bs: seq<BackupEntry>, keep: nat)
      requires IsListing(disk.backupDir, codec, bs) && keep <= |bs|
      modifies disk
      ensures DeletedFrom(old(disk.backupDir), disk.backupDir, bs, keep)
      ensures disk.files == old(disk.files)
    {
      ghost var start := disk.backupDir;
      for t := 0 to |bs| - keep
        invariant DeletedFrom(start, disk.backupDir, bs, |bs| - t)
        invariant disk.files == old(disk.files)
      {
        var j := |bs| - 1 - t;
        ghost var cur := disk.backupDir;
        var _ := DeleteBackup(disk, bs[j].name);
        DeleteStep(start, cur, disk.backupDir, codec, bs, j);
      }
    }

    /**
     * `rotate_backups`: when there are more backups than `max_backups`,
     * deletes the oldest ones down to `max_backups`, ignoring failures.
     */
    method RotateBackups(disk: Disk)
      modifies disk
      ensures Rotated(old(disk.backupDir), disk.backupDir, maxBackups, codec)
      ensures disk.files == old(disk.files)
    {
      var bs := ListBackups(disk);
      // the listing is sorted once more, which keeps it a listing
      SortedListing(disk.backupDir, codec, bs);
      bs := SortDesc(bs, TimestampKey);
      ListingSize(disk.backupDir, codec, bs);
      if |bs| > maxBackups {
        ghost var before := disk.backupDir;
        DeleteOldest(disk, bs, maxBackups);
        RotatedByDeletion(before, disk.backupDir, codec, bs, maxBackups);
      } else {
        RotatedWithinLimit(disk.backupDir, maxBackups, codec);
      }
    }

    /**
     * The body `create_backup` and `create_auto_backup` share: copies the
     * source to `backup_<now>.db`, writes its `.meta`, then rotates. A
     * missing source is NotFound; a source, backup or `.meta` path that is
     * a directory fails. A source that is a directory fails only after the
     * backup file has been created empty, and a failure to write the
     * `.meta` comes after the backup file has been written.
     */
    method CreateWith(disk: Disk, source: string, description: string, kind: string, now: nat)
      returns (r: Result<string, IoError>)
      modifies disk
      ensures disk.files == old(disk.files)
      ensures source !in old(disk.files) ==> r == Err(IoError(NotFound))
      ensures var name := BackupFileName(now);
              r.Ok? <==> Copyable(old(disk.backupDir), old(disk.files), source, name)
                         && !(MetaName(name) in old(disk.backupDir) && old(disk.backupDir)[MetaName(name)].Directory?)
      ensures var name := BackupFileName(now);
              r.Err? ==> disk.backupDir == if source in old(disk.files) && Creatable(old(disk.backupDir), name)
                                           then old(disk.backupDir)[name := CopiedEntry(old(disk.files)[source])]
                                           else old(disk.backupDir)
      ensures r.Ok? ==>
                var name := BackupFileName(now);
                source in old(disk.files) && old(disk.files)[source].File? &&
                var bytes := old(disk.files)[source].bytes;
                var m := BackupMetadata(now, description, |bytes|, version, kind);
                && r.value == name
                && Rotated(Written(old(disk.backupDir), name, bytes, m, codec), disk.backupDir, maxBackups, codec)
    {
      var name := BackupFileName(now);
      if source !in disk.files {
        return Err(IoError(NotFound));
      }
      if name in disk.backupDir && disk.backupDir[name].Directory? {
        return Err(IoError(Other));
      }
      if disk.files[source].Directory? {
        disk.backupDir := disk.backupDir[name := File([])];
        return Err(IoError(Other));
      }
      var bytes := disk.files[source].bytes;
      disk.backupDir := disk.backupDir[name := File(bytes)];
      var m := BackupMetadata(now, description, |bytes|, version, kind);
      var meta := MetaName(name);
      if meta in disk.backupDir && disk.backupDir[meta].Directory? {
        return Err(IoError(Other));
      }
      disk.backupDir := disk.backupDir[meta := File(codec.encode(m))];
      RotateBackups(disk);
      r := Ok(name);
    }

    /** `create_backup`: a "manual" backup with the caller's description. */
    method CreateBackup(disk: Disk, source: string, description: string, now: nat)
      returns (r: Result<string, IoError>)
      modifies disk
      ensures disk.files == old(disk.files)
      ensures source !in old(disk.files) ==> r == Err(IoError(NotFound))
      ensures var name := BackupFileName(now);
              r.Ok? <==> Copyable(old(disk.backupDir), old(disk.files), source, name)
                         && !(MetaName(name) in old(disk.backupDir) && old(disk.backupDir)[MetaName(name)].Directory?)
      ensures var name := BackupFileName(now);
              r.Err? ==> disk.backupDir == if source in old(disk.files) && Creatable(old(disk.backupDir), name)
                                           then old(disk.backupDir)[name := CopiedEntry(old(disk.files)[source])]
                                           else old(disk.backupDir)
      ensures r.Ok? ==>
                var name := BackupFileName(now);
                source in old(disk.files) && old(disk.files)[source].File? &&
                var bytes := old(disk.files)[source].bytes;
                var m := BackupMetadata(now, description, |bytes|, version, "manual");
                && r.value == name
                && Rotated(Written(old(disk.backupDir), name, bytes, m, codec), disk.backupDir, maxBackups, codec)
    {
      r := CreateWith(disk, source, description, "manual", now);
    }

    /** `create_auto_backup`: an "auto" backup described as "Automatic backup". */
    method CreateAutoBackup(disk: Disk, source: string, now: nat)
      returns (r: Result<string, IoError>)
      modifies disk
      ensures disk.files == old(disk.files)
      ensures source !in old(disk.files) ==> r == Err(IoError(NotFound))
      ensures var name := BackupFileName(now);
              r.Ok? <==> Copyable(old(disk.backupDir), old(disk.files), source, name)
                         && !(MetaName(name) in old(disk.backupDir) && old(disk.backupDir)[MetaName(name)].Directory?)
      ensures var name := BackupFileName(now);
              r.Err? ==> disk.backupDir == if source in old(disk.files) && Creatable(old(disk.backupDir), name)
                                           then old(disk.backupDir)[name := CopiedEntry(old(disk.files)[source])]
                                           else old(disk.backupDir)
      ensures r.Ok? ==>
                var name := BackupFileName(now);
                source in old(disk.files) && old(disk.files)[source].File? &&
                var bytes := old(disk.files)[source].bytes;
                var m := BackupMetadata(now, "Automatic backup", |bytes|, version, "auto");
                && r.value == name
                && Rotated(Written(old(disk.backupDir), name, bytes, m, codec), disk.backupDir, maxBackups, codec)
    {
      r := CreateWith(disk, source, "Automatic backup", "auto", now);
    }

    /**
     * The pre-restore backup of an existing target, its outcome ignored:
     * the other files stay as they are, every entry of the backup directory
     * is either as it was or a file, only `backup_<now>.db` and its `.meta`
     * can have been written, and `backup_<now>.db` afterwards, if present,
     * holds the target's contents unless it is a directory.
     */
    method PreRestoreBackup(disk: Disk, target: string, now: nat)
      requires target in disk.files
      modifies disk
      ensures disk.files == old(disk.files)
      ensures forall k :: k in disk.backupDir ==>
                (k in old(disk.backupDir) && disk.backupDir[k] == old(disk.backupDir)[k]) || disk.backupDir[k].File?
      ensures var n := BackupFileName(now);
              forall k :: k in disk.backupDir && k != n && k != MetaName(n) ==>
                k in old(disk.backupDir) && disk.backupDir[k] == old(disk.backupDir)[k]
      ensures var n := BackupFileName(now);
              old(disk.files)[target].File? && n in disk.backupDir ==>
                disk.backupDir[n] == old(disk.files)[target] || disk.backupDir[n].Directory?
    {
      ghost var before := disk.backupDir;
      var made := CreateBackup(disk, target, "Pre-restore backup of " + target, now);
      if made.Ok? {
        var bytes := disk.files[target].bytes;
        var m := BackupMetadata(now, "Pre-restore backup of " + target, |bytes|, version, "manual");
        RotationRemovesOnly(Written(before, BackupFileName(now), bytes, m, codec), disk.backupDir, maxBackups, codec);
        WrittenThenRotated(before, disk.backupDir, BackupFileName(now), bytes, m, codec);
      }
    }

    /**
     * `restore_backup`, as written: NotFound for a missing backup; a
     * pre-restore backup of an existing target (its failure ignored); the
     * target removed; the backup copied over it and compared with the
     * backup. The pre-restore backup is named after the current second, so
     * when the backup being restored carries that name it is overwritten
     * with the target first, and the target gets its own contents back.
     * A backup that is a directory leaves the target an empty file.
     */
    method RestoreBackup(disk: Disk, name: string, target: string, now: nat)
      returns (r: Result<(), IoError>)
      modifies disk
      ensures name !in old(disk.backupDir) ==>
                r == Err(IoError(NotFound)) && disk.backupDir == old(disk.backupDir) && disk.files == old(disk.files)
      ensures r.Ok? ==> target in disk.files && name in disk.backupDir && disk.files[target] == disk.backupDir[name]
      ensures r.Err? ==> || name !in old(disk.backupDir) || old(disk.backupDir)[name].Directory?
                         || (target in old(disk.files) && old(disk.files)[target].Directory?)
                         || name !in disk.backupDir
      ensures target !in old(disk.files) && name in old(disk.backupDir) ==>
                && disk.backupDir == old(disk.backupDir)
                && (r.Ok? <==> old(disk.backupDir)[name].File?)
                && disk.files == old(disk.files)[target := CopiedEntry(old(disk.backupDir)[name])]
      ensures name == BackupFileName(now) && target in old(disk.files) && old(disk.files)[target].File? && r.Ok? ==>
                disk.files[target] == old(disk.files)[target]
      ensures var n := BackupFileName(now);
              name != n && name != MetaName(n) && r.Ok? ==> disk.files[target] == old(disk.backupDir)[name]
      ensures forall p :: p != target ==>
                (p in disk.files <==> p in old(disk.files)) && (p in disk.files ==> disk.files[p] == old(disk.files)[p])
      ensures name in old(disk.backupDir) && target in old(disk.files) ==>
                forall k :: k in disk.backupDir ==>
                  (k in old(disk.backupDir) && disk.backupDir[k] == old(disk.backupDir)[k]) || disk.backupDir[k].File?
      ensures var n := BackupFileName(now);
              name in old(disk.backupDir) && target in old(disk.files) ==>
                forall k :: k in disk.backupDir && k != n && k != MetaName(n) ==>
                  k in old(disk.backupDir) && disk.backupDir[k] == old(disk.backupDir)[k]
      ensures var n := BackupFileName(now);
              name in old(disk.backupDir) && target in old(disk.files) && old(disk.files)[target].File? && n in disk.backupDir ==>
                disk.backupDir[n] == old(disk.files)[target] || disk.backupDir[n].Directory?
    {
      if name !in disk.backupDir {
        return Err(IoError(NotFound));
      }
      if target in disk.files {
        PreRestoreBackup(disk, target, now);
      }
      if target in disk.files {
        if disk.files[target].Directory? {
          return Err(IoError(Other));
        }
        disk.files := disk.files - {target};
      }
      if name !in disk.backupDir {
        return Err(IoError(NotFound));
      }
      if disk.backupDir[name].Directory? {
        disk.files := disk.files[target := File([])];
        return Err(IoError(Other));
      }
      disk.files := disk.files[target := disk.backupDir[name]];
      r := Ok(());
    }

    /**
     * `restore_backup` as its test evidently intends: the backup's bytes
     * are read before the pre-restore backup is taken, so the target ends
     * with them even when the pre-restore backup reuses the backup's name.
     */
    method RestoreBackupSnapshotFirst(disk: Disk, name: string, target: string, now: nat)
      returns (r: Result<(), IoError>)
      modifies disk
      ensures name !in old(disk.backupDir) ==>
                r == Err(IoError(NotFound)) && disk.backupDir == old(disk.backupDir) && disk.files == old(disk.files)
      ensures r.Ok? <==> name in old(disk.backupDir) && old(disk.backupDir)[name].File?
                         && !(target in old(disk.files) && old(disk.files)[target].Directory?)
      ensures r.Ok? ==> disk.files == old(disk.files)[target := old(disk.backupDir)[name]]
      ensures forall p :: p != target ==>
                (p in disk.files <==> p in old(disk.files)) && (p in disk.files ==> disk.files[p] == old(disk.files)[p])
      ensures forall k :: k in disk.backupDir ==>
                (k in old(disk.backupDir) && disk.backupDir[k] == old(disk.backupDir)[k]) || disk.backupDir[k].File?
      ensures var n := BackupFileName(now);
              forall k :: k in disk.backupDir && k != n && k != MetaName(n) ==>
                k in old(disk.backupDir) && disk.backupDir[k] == old(disk.backupDir)[k]
    {
      if name !in disk.backupDir {
        return Err(IoError(NotFound));
      }
      if disk.backupDir[name].Directory? {
        return Err(IoError(Other));
      }
      var snapshot := disk.backupDir[name];
      if target in disk.files {
        PreRestoreBackup(disk, target, now);
      }
      if target in disk.files {
        if disk.files[target].Directory? {
          return Err(IoError(Other));
        }
        disk.files := disk.files - {target};
      }
      disk.files := disk.files[target := snapshot];
      r := Ok(());
    }
  }
}
