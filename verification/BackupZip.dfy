/**
  The backup archive: what goes into it, the checks a restore makes before touching anything, and the extraction.
  Hashing and the manifest's JSON form are parameters; encryption is the entry's password check.
  */
module BackupZip {
  import opened PyText
  import opened Utf8
  import opened Wrappers

  const MAX_ZIP_BYTES := 2 * 1024 * 1024 * 1024
  const MAX_UNCOMPRESSED_BYTES := 4 * 1024 * 1024 * 1024
  const MAX_COMPRESSION_RATIO := 200

  const MANIFEST := "manifest.json"
  const README := "README-RESTORE.md"

  // ------------------------------------------------------------------ data

  datatype Check = Check(name: string, digest: string)

  datatype Manifest = Manifest(format: Option<int>, app: Option<string>, checksums: seq<Check>, head: Option<string>)

  /** SHA-256, json.dumps and json.loads of manifests. */
  datatype Codec = Codec(hash: Bytes -> string, dump: Manifest -> Bytes, load: Bytes -> Option<Manifest>)

  /** `declared` is the uncompressed size in the entry's header. */
  datatype Entry = Entry(name: string, declared: nat, compressed: nat, encrypted: bool, data: Bytes)

  datatype Zip = Zip(password: string, entries: seq<Entry>)

  /** `zip` is None when the file is not a readable zip. */
  datatype File = File(size: nat, zip: Option<Zip>)

  /** The code's own migrations: its head and all it knows. */
  datatype Revisions = Revisions(head: Option<string>, known: set<string>)

  datatype Reason =
    | TooBig | Corrupt | NotAllowed | SuspiciousRatio | TooMuch
    | NoManifest | WrongPassword | BadManifest | BadFormat | WrongApp
    | CheckNotAllowed | MissingEntry | BadChecksum | UnknownRevision

  datatype Verdict = Accepted(manifest: Manifest, needsUpgrade: bool) | Refused(reason: Reason)

  // ------------------------------------------------------------------ names

  predicate HasDots(s: string) {
    exists i :: 0 <= i < |s| - 1 && s[i] == '.' && s[i + 1] == '.'
  }

  predicate HasAllowedPrefix(name: string) {
    "db/" <= name || "tls/" <= name || "host/" <= name
  }

  /** _entry_allowed */
  predicate EntryAllowed(name: string) {
    || name == MANIFEST || name == README
    || (HasAllowedPrefix(name) && !HasDots(name) && !("/" <= name))
  }

  predicate IsDirectory(name: string) {
    name != [] && name[|name| - 1] == '/'
  }

  // ------------------------------------------------------------------ validation

  predicate EntryOk(e: Entry) {
    IsDirectory(e.name) || (EntryAllowed(e.name) && e.declared <= MAX_COMPRESSION_RATIO * Max(1, e.compressed))
  }

  /** The first objection to the listed entries. */
  function ScanEntries(entries: seq<Entry>): Option<Reason> {
    if entries == [] then None
    else if EntryOk(entries[0]) then ScanEntries(entries[1..])
    else Some(if EntryAllowed(entries[0].name) then SuspiciousRatio else NotAllowed)
  }

  function Total(entries: seq<Entry>): nat {
    if entries == [] then 0
    else (if IsDirectory(entries[0].name) then 0 else entries[0].declared) + Total(entries[1..])
  }

  datatype Reading = NoSuchEntry | Undecryptable | Contents(data: Bytes)

  /** zf.read(name): of several entries of one name the last one counts. */
  function Read(zip: Zip, password: string, name: string): Reading {
    ReadFrom(zip.entries, zip.password == password, name)
  }

  function ReadFrom(entries: seq<Entry>, unlocked: bool, name: string): Reading {
    if entries == [] then NoSuchEntry
    else
      var n := |entries| - 1;
      if entries[n].name != name then ReadFrom(entries[..n], unlocked, name)
      else if entries[n].encrypted && !unlocked then Undecryptable
      else Contents(entries[n].data)
  }

  function CheckOne(c: Codec, zip: Zip, password: string, k: Check): Option<Reason> {
    if !EntryAllowed(k.name) then Some(CheckNotAllowed)
    else
      match Read(zip, password, k.name)
      case NoSuchEntry => Some(MissingEntry)
      case Undecryptable => Some(WrongPassword)
      case Contents(data) => if c.hash(data) == k.digest then None else Some(BadChecksum)
  }

  function ScanChecks(c: Codec, zip: Zip, password: string, checks: seq<Check>): Option<Reason>
    decreases checks
  {
    if checks == [] then None
    else
      var r := CheckOne(c, zip, password, checks[0]);
      if r.Some? then r else ScanChecks(c, zip, password, checks[1..])
  }

  predicate Named(head: Option<string>) {
    head.Some? && head.value != []
  }

  function JudgeManifest(c: Codec, zip: Zip, password: string, revs: Revisions, m: Manifest): Verdict {
    if m.format != Some(1) then Refused(BadFormat)
    else if m.app != Some("wardnode") then Refused(WrongApp)
    else
      var r := ScanChecks(c, zip, password, m.checksums);
      if r.Some? then Refused(r.value)
      else if Named(m.head) && revs.known != {} then
        if m.head.value !in revs.known then Refused(UnknownRevision) else Accepted(m, m.head != revs.head)
      else Accepted(m, false)
  }

  /** validate_backup_zip */
  function Validate(c: Codec, file: File, password: string, revs: Revisions): Verdict {
    if file.size > MAX_ZIP_BYTES then Refused(TooBig)
    else if file.zip.None? then Refused(Corrupt)
    else
      var zip := file.zip.value;
      var r := ScanEntries(zip.entries);
      if r.Some? then Refused(r.value)
      else if Total(zip.entries) > MAX_UNCOMPRESSED_BYTES then Refused(TooMuch)
      else
        match Read(zip, password, MANIFEST)
        case NoSuchEntry => Refused(NoManifest)
        case Undecryptable => Refused(WrongPassword)
        case Contents(data) =>
          var m := c.load(data);
          if m.None? then Refused(BadManifest) else JudgeManifest(c, zip, password, revs, m.value)
  }

  // ------------------------------------------------------------------ extraction

  /** Where a relative path leads, lexically; None when it leaves the directory it starts in. */
  function Resolve(parts: seq<string>, at: seq<string>): Option<seq<string>>
    decreases parts
  {
    if parts == [] then Some(at)
    else if parts[0] == [] || parts[0] == "." then Resolve(parts[1..], at)
    else if parts[0] == ".." then (if at == [] then None else Resolve(parts[1..], at[..|at| - 1]))
    else Resolve(parts[1..], at + [parts[0]])
  }

  /** The file an entry name stands for below the work directory; [] is the directory itself. */
  function PathOf(name: string): seq<string> {
    var r := Resolve(Split(name, '/'), []);
    if r.Some? then r.value else []
  }

  /** One of the paths would have to be a file and a directory at once. */
  predicate Clash(a: seq<string>, b: seq<string>) {
    a < b || b < a
  }

  /** mkdir of the parents and write_bytes: fails on a directory, and below a file. */
  function WriteFile(files: map<seq<string>, Bytes>, path: seq<string>, data: Bytes): Option<map<seq<string>, Bytes>> {
    if path == [] || exists q :: q in files && Clash(q, path) then None else Some(files[path := data])
  }

  /** The files written for the listed entries, one after the other; None when a read or a write raises. */
  function Extract(zip: Zip, password: string, checks: seq<Check>): Option<map<seq<string>, Bytes>> {
    if checks == [] then Some(map[])
    else
      var n := |checks| - 1;
      var before := Extract(zip, password, checks[..n]);
      var r := Read(zip, password, checks[n].name);
      if before.Some? && r.Contents? then WriteFile(before.value, PathOf(checks[n].name), r.data) else None
  }

  // ------------------------------------------------------------------ creation

  function BaseName(path: string): string {
    var parts := Split(path, '/');
    parts[|parts| - 1]
  }

  predicate IsEnv(path: string) {
    ".env" <= BaseName(path)
  }

  /** The collected files without any .env file. */
  function Kept(collected: map<string, Bytes>): map<string, Bytes> {
    map n | n in collected && !IsEnv(n) :: collected[n]
  }

  function Sums(c: Codec, files: map<string, Bytes>, order: seq<string>): (checks: seq<Check>)
    requires forall i :: 0 <= i < |order| ==> order[i] in files
    ensures |checks| == |order|
    ensures forall i :: 0 <= i < |order| ==> checks[i] == Check(order[i], c.hash(files[order[i]]))
  {
    if order == [] then []
    else
      var n := |order| - 1;
      Sums(c, files, order[..n]) + [Check(order[n], c.hash(files[order[n]]))]
  }

  function Pack(files: map<string, Bytes>, order: seq<string>, compressed: string -> nat): (entries: seq<Entry>)
    requires forall i :: 0 <= i < |order| ==> order[i] in files
    ensures |entries| == |order|
    ensures forall i :: 0 <= i < |order| ==>
              entries[i] == Entry(order[i], |files[order[i]]|, compressed(order[i]), true, files[order[i]])
  {
    if order == [] then []
    else
      var n := |order| - 1;
      Pack(files, order[..n], compressed)
        + [Entry(order[n], |files[order[n]]|, compressed(order[n]), true, files[order[n]])]
  }

  /** A listing of a directory: every name once. */
  ghost predicate Lists(order: seq<string>, names: set<string>) {
    && (forall n :: n in order <==> n in names)
    && (forall i, j :: 0 <= i < j < |order| ==> order[i] != order[j])
  }

  /** What surrounds a backup: the README text, the dump's migration, and the two sorted listings. */
  datatype Job = Job(readme: Bytes, head: Option<string>, order: seq<string>, all: seq<string>)

  function ManifestOf(c: Codec, collected: map<string, Bytes>, job: Job): Manifest
    requires Lists(job.order, Kept(collected).Keys)
  {
    Manifest(Some(1), Some("wardnode"), Sums(c, Kept(collected), job.order), job.head)
  }

  function WorkDir(c: Codec, collected: map<string, Bytes>, job: Job): map<string, Bytes>
    requires Lists(job.order, Kept(collected).Keys)
  {
    Kept(collected)[MANIFEST := c.dump(ManifestOf(c, collected, job))][README := job.readme]
  }

  ghost predicate JobFits(c: Codec, collected: map<string, Bytes>, job: Job) {
    && Lists(job.order, Kept(collected).Keys)
    && Lists(job.all, WorkDir(c, collected, job).Keys)
    && MANIFEST !in collected && README !in collected
    && (forall n :: n in collected ==> RealName(n))
    && (forall m, n :: m in collected && n in collected ==> !Clash(Split(m, '/'), Split(n, '/')))
  }

  /** A path as the file system lists it: no empty, "." or ".." parts. */
  predicate RealName(name: string) {
    forall i :: 0 <= i < |Split(name, '/')| ==> Split(name, '/')[i] !in {[], ".", ".."}
  }

  lemma {:induction false} ResolvesToItself(parts: seq<string>, at: seq<string>)
    requires forall i :: 0 <= i < |parts| ==> parts[i] !in {[], ".", ".."}
    ensures Resolve(parts, at) == Some(at + parts)
    decreases parts
  {
    if parts == [] {
      assert at + [] == at;
    } else {
      ResolvesToItself(parts[1..], at + [parts[0]]);
      assert at + [parts[0]] + parts[1..] == at + parts;
    }
  }

  lemma RealPath(name: string)
    requires RealName(name)
    ensures PathOf(name) == Split(name, '/') && !IsDirectory(name)
  {
    hide Split;
    ResolvesToItself(Split(name, '/'), []);
    assert [] + Split(name, '/') == Split(name, '/');
    if IsDirectory(name) {
      TrailingSlash(name);
      assert false;
    }
  }

  lemma {:induction false} TrailingSlash(name: string)
    requires IsDirectory(name)
    ensures Split(name, '/')[|Split(name, '/')| - 1] == []
    decreases |name|
  {
    if |name| == 1 {
      assert name[1..] == [];
    } else {
      TrailingSlash(name[1..]);
    }
  }

  function Create(c: Codec, collected: map<string, Bytes>, job: Job, password: string, compressed: string -> nat): Zip
    requires JobFits(c, collected, job)
  {
    Zip(password, Pack(WorkDir(c, collected, job), job.all, compressed))
  }

  // ------------------------------------------------------------------ what the scans mean

  lemma {:induction false} ScanEntriesIff(entries: seq<Entry>)
    ensures ScanEntries(entries) == None <==> forall i :: 0 <= i < |entries| ==> EntryOk(entries[i])
  {
    if entries != [] {
      ScanEntriesIff(entries[1..]);
      assert forall i :: 1 <= i < |entries| ==> entries[i] == entries[1..][i - 1];
    }
  }

  lemma {:induction false} ScanChecksIff(c: Codec, zip: Zip, password: string, checks: seq<Check>)
    ensures ScanChecks(c, zip, password, checks) == None
       <==> forall i :: 0 <= i < |checks| ==> CheckOne(c, zip, password, checks[i]) == None
    decreases checks
  {
    hide CheckOne;
    if checks != [] {
      ScanChecksIff(c, zip, password, checks[1..]);
      assert forall i :: 1 <= i < |checks| ==> checks[i] == checks[1..][i - 1];
    }
  }

  predicate AllRead(zip: Zip, password: string, checks: seq<Check>) {
    forall i :: 0 <= i < |checks| ==> Read(zip, password, checks[i].name).Contents? && PathOf(checks[i].name) != []
  }

  predicate NoClash(checks: seq<Check>) {
    forall i, j :: 0 <= i < j < |checks| ==> !Clash(PathOf(checks[i].name), PathOf(checks[j].name))
  }

  /** Entry i is the last of those that stand for its path. */
  predicate LastFor(checks: seq<Check>, i: nat)
    requires i < |checks|
  {
    forall j :: i < j < |checks| ==> PathOf(checks[j].name) != PathOf(checks[i].name)
  }

  /** The files hold, for every path that is listed and no other, what the last entry for it holds. */
  ghost predicate Holds(zip: Zip, password: string, checks: seq<Check>, files: map<seq<string>, Bytes>) {
    && (forall i :: 0 <= i < |checks| ==> PathOf(checks[i].name) in files)
    && (forall path :: path in files ==>
          exists i :: Stands(zip, password, checks, i, path, files[path]))
  }

  /** Entry i is the one whose contents the path ends with. */
  ghost predicate Stands(zip: Zip, password: string, checks: seq<Check>, i: int, path: seq<string>, data: Bytes) {
    && 0 <= i < |checks| && PathOf(checks[i].name) == path && LastFor(checks, i)
    && Read(zip, password, checks[i].name) == Contents(data)
  }

  lemma {:induction false} ExtractIs(zip: Zip, password: string, checks: seq<Check>)
    requires AllRead(zip, password, checks)
    ensures Extract(zip, password, checks).Some? <==> NoClash(checks)
    ensures Extract(zip, password, checks).Some? ==> Holds(zip, password, checks, Extract(zip, password, checks).value)
  {
    hide Read, PathOf, Clash;
    if checks != [] {
      var n := |checks| - 1;
      var front := checks[..n];
      assert forall i :: 0 <= i < n ==> front[i] == checks[i];
      ExtractIs(zip, password, front);
      if NoClash(front) {
        ExtractOne(zip, password, checks, Extract(zip, password, front).value);
      }
    }
  }

  lemma ExtractOne(zip: Zip, password: string, checks: seq<Check>, files: map<seq<string>, Bytes>)
    requires checks != [] && AllRead(zip, password, checks)
    requires NoClash(checks[..|checks| - 1]) && Holds(zip, password, checks[..|checks| - 1], files)
    ensures var last := checks[|checks| - 1].name;
            var r := WriteFile(files, PathOf(last), Read(zip, password, last).data);
            (r.Some? <==> NoClash(checks)) && (r.Some? ==> Holds(zip, password, checks, r.value))
  {
    hide Read, PathOf, Clash;
    var path := PathOf(checks[|checks| - 1].name);
    WritesIff(zip, password, checks, files);
    if forall q :: q in files ==> !Clash(q, path) {
      hide AllRead, NoClash;
      WriteHolds(zip, password, checks, files);
    }
  }

  lemma WritesIff(zip: Zip, password: string, checks: seq<Check>, files: map<seq<string>, Bytes>)
    requires checks != []
    requires NoClash(checks[..|checks| - 1]) && Holds(zip, password, checks[..|checks| - 1], files)
    ensures NoClash(checks) <==> forall q :: q in files ==> !Clash(q, PathOf(checks[|checks| - 1].name))
  {
    hide Read, PathOf, Clash, LastFor;
    var n := |checks| - 1;
    var front := checks[..n];
    assert forall i :: 0 <= i < n ==> front[i] == checks[i];
    forall i | 0 <= i < n ensures PathOf(checks[i].name) in files
    {
      assert PathOf(front[i].name) in files;
    }
    if NoClash(checks) {
      forall q | q in files ensures !Clash(q, PathOf(checks[n].name))
      {
        var i :| 0 <= i < n && PathOf(front[i].name) == q;
      }
    }
  }

  lemma WriteHolds(zip: Zip, password: string, checks: seq<Check>, files: map<seq<string>, Bytes>)
    requires checks != [] && Read(zip, password, checks[|checks| - 1].name).Contents?
    requires Holds(zip, password, checks[..|checks| - 1], files)
    ensures var last := checks[|checks| - 1].name;
            Holds(zip, password, checks, files[PathOf(last) := Read(zip, password, last).data])
  {
    hide Read, PathOf, LastFor;
    var n := |checks| - 1;
    var front := checks[..n];
    var path := PathOf(checks[n].name);
    var after := files[path := Read(zip, password, checks[n].name).data];
    assert forall i :: 0 <= i < n ==> front[i] == checks[i];
    forall i | 0 <= i < |checks| ensures PathOf(checks[i].name) in after
    {
      assert i < n ==> PathOf(front[i].name) in files;
    }
    forall q | q in after
      ensures exists i :: Stands(zip, password, checks, i, q, after[q])
    {
      if q == path {
        LastIsLast(checks);
        assert Stands(zip, password, checks, n, q, after[q]);
      } else {
        var i :| Stands(zip, password, front, i, q, files[q]);
        StillStands(zip, password, checks, i, q, files[q]);
      }
    }
  }

  lemma LastIsLast(checks: seq<Check>)
    requires checks != []
    ensures LastFor(checks, |checks| - 1)
  {
  }

  lemma StillStands(zip: Zip, password: string, checks: seq<Check>, i: int, path: seq<string>, data: Bytes)
    requires checks != [] && Stands(zip, password, checks[..|checks| - 1], i, path, data)
    requires PathOf(checks[|checks| - 1].name) != path
    ensures Stands(zip, password, checks, i, path, data)
  {
    hide Read, PathOf;
    var front := checks[..|checks| - 1];
    assert forall j :: 0 <= j < |front| ==> front[j] == checks[j];
  }

  /** A name that may be in a backup: one of the two fixed files, or below one of three directories without two dots in a row. */
  predicate NameFine(name: string) {
    || name in {"manifest.json", "README-RESTORE.md"}
    || (&& ("db/" <= name || "tls/" <= name || "host/" <= name)
        && (forall i :: 0 <= i < |name| - 1 ==> !(name[i] == '.' && name[i + 1] == '.')))
  }

  /** An entry that may be: a directory, or a file with such a name that unpacks to no more than 200 times its size. */
  predicate EntryFine(e: Entry) {
    || (e.name != "" && e.name[|e.name| - 1] == '/')
    || (NameFine(e.name) && e.declared <= 200 * (if e.compressed > 1 then e.compressed else 1))
  }

  lemma AllowedIffFine(name: string)
    ensures EntryAllowed(name) <==> NameFine(name)
  {
    assert "db/"[0] != '/' && "tls/"[0] != '/' && "host/"[0] != '/' && "/"[0] == '/';
  }

  lemma FineIffOk(e: Entry)
    ensures EntryOk(e) <==> EntryFine(e)
  {
    AllowedIffFine(e.name);
    hide EntryAllowed, NameFine;
  }

  /** The declared sizes of all entries that are no directories, and what reading a name gives: its last entry, if it opens. */
  lemma TotalAndReadAre(entries: seq<Entry>, e: Entry, unlocked: bool, name: string)
    ensures Total([e] + entries) == (if e.name != "" && e.name[|e.name| - 1] == '/' then 0 else e.declared) + Total(entries)
    ensures Total([]) == 0 && ReadFrom([], unlocked, name) == NoSuchEntry
    ensures ReadFrom(entries + [e], unlocked, name)
         == if e.name != name then ReadFrom(entries, unlocked, name)
            else if e.encrypted && !unlocked then Undecryptable else Contents(e.data)
  {
    assert ([e] + entries)[1..] == entries && (entries + [e])[..|entries|] == entries;
  }

  /**
    What acceptance means, with the manifest it returns: size, entries, ratios and total within the limits, a manifest
    that can be read and is of this application and format, every listed checksum right, and a known migration.
    */
  lemma AcceptedIff(c: Codec, file: File, password: string, revs: Revisions, m: Manifest, needsUpgrade: bool)
    ensures Validate(c, file, password, revs) == Accepted(m, needsUpgrade) <==>
              && file.size <= 2_147_483_648 && file.zip.Some?
              && (forall i :: 0 <= i < |file.zip.value.entries| ==> EntryFine(file.zip.value.entries[i]))
              && Total(file.zip.value.entries) <= 4_294_967_296
              && Read(file.zip.value, password, "manifest.json").Contents?
              && c.load(Read(file.zip.value, password, "manifest.json").data) == Some(m)
              && m.format == Some(1) && m.app == Some("wardnode")
              && (forall i :: 0 <= i < |m.checksums| ==>
                    && EntryAllowed(m.checksums[i].name)
                    && Read(file.zip.value, password, m.checksums[i].name).Contents?
                    && c.hash(Read(file.zip.value, password, m.checksums[i].name).data) == m.checksums[i].digest)
              && (m.head.Some? && m.head.value != "" && revs.known != {} ==> m.head.value in revs.known)
              && needsUpgrade == (m.head.Some? && m.head.value != "" && revs.known != {} && m.head != revs.head)
  {
    if file.zip.Some? {
      var zip := file.zip.value;
      forall e ensures EntryOk(e) <==> EntryFine(e)
      {
        FineIffOk(e);
      }
      assert MANIFEST == "manifest.json";
      hide EntryOk, EntryFine, EntryAllowed, ReadFrom, Read, Total, ScanEntries, ScanChecks;
      ScanEntriesIff(zip.entries);
      ScanChecksIff(c, zip, password, m.checksums);
      forall i | 0 <= i < |m.checksums|
        ensures CheckOne(c, zip, password, m.checksums[i]) == None <==>
                  && EntryAllowed(m.checksums[i].name)
                  && Read(zip, password, m.checksums[i].name).Contents?
                  && c.hash(Read(zip, password, m.checksums[i].name).data) == m.checksums[i].digest
      {
      }
    }
  }

  // ------------------------------------------------------------------ extraction is checked and stays inside

  lemma {:induction false} NoDotsInParts(s: string, sep: char)
    requires !HasDots(s)
    ensures forall i :: 0 <= i < |Split(s, sep)| ==> !HasDots(Split(s, sep)[i])
    ensures Split(s, sep)[0] <= s
    decreases |s|
  {
    if s == [] {
      assert Split(s, sep) == [s];
    } else {
      assert s[1..] == s[1..|s|];
      NoDotsInParts(s[1..], sep);
      var rest := Split(s[1..], sep);
      var first := if s[0] == sep then [] else [s[0]] + rest[0];
      assert first == s[0..|first|];
      var tail := if s[0] == sep then rest else rest[1..];
      assert Split(s, sep) == [first] + tail;
      hide HasDots, Split;
      forall i | 0 <= i < |[first] + tail| ensures !HasDots(([first] + tail)[i])
      {
        assert i > 0 && s[0] != sep ==> tail[i - 1] == rest[i];
      }
    }
  }

  lemma {:induction false} ResolvesInside(parts: seq<string>, at: seq<string>)
    requires forall i :: 0 <= i < |parts| ==> parts[i] != ".."
    ensures Resolve(parts, at).Some? && at <= Resolve(parts, at).value
    decreases parts
  {
    if parts != [] {
      if parts[0] == [] || parts[0] == "." {
        ResolvesInside(parts[1..], at);
      } else {
        ResolvesInside(parts[1..], at + [parts[0]]);
        assert at <= at + [parts[0]];
      }
    }
  }

  /** An allowed name is relative and stands for a file strictly inside the directory it is extracted to. */
  lemma AllowedStaysInside(name: string)
    requires EntryAllowed(name)
    ensures !("/" <= name) && Resolve(Split(name, '/'), []).Some? && PathOf(name) != []
  {
    AllowedHasNoDots(name);
    FirstPart(name);
    hide EntryAllowed;
    NoDotsInParts(name, '/');
    assert HasDots("..") by {
      assert ".."[0] == '.' && ".."[0 + 1] == '.';
    }
    hide HasDots, Split;
    var parts := Split(name, '/');
    ResolvesInside(parts[1..], [parts[0]]);
    assert [] + [parts[0]] == [parts[0]];
    assert Resolve(parts, []) == Resolve(parts[1..], [parts[0]]);
  }

  /** The first part of an allowed name is one of the three directories or a file of its own. */
  lemma FirstPart(name: string)
    requires EntryAllowed(name)
    ensures PlainPart(Split(name, '/')[0])
  {
    hide Split, HasDots;
    if name == MANIFEST || name == README {
      FixedNames();
      WholePart(name);
    } else {
      FixedDirectories();
      var n := if "db/" <= name then 2 else if "tls/" <= name then 3 else 4;
      var dir := name[..n];
      assert name == dir + ['/'] + name[n + 1..];
      PartBeforeSlash(dir, name[n + 1..]);
    }
  }

  predicate PlainPart(part: string) {
    part != [] && part[0] != '.' && '/' !in part
  }

  lemma FixedDirectories()
    ensures PlainPart("db") && PlainPart("tls") && PlainPart("host")
  {
  }

  lemma PartBeforeSlash(dir: string, rest: string)
    requires '/' !in dir
    ensures Split(dir + ['/'] + rest, '/')[0] == dir
  {
    SplitFirstPart(dir, rest, '/');
  }

  lemma {:induction false} WholePart(part: string)
    requires '/' !in part
    ensures Split(part, '/') == [part]
    decreases |part|
  {
    if part != [] {
      WholePart(part[1..]);
      assert [part[0]] + part[1..] == part;
    }
  }

  lemma AllowedHasNoDots(name: string)
    requires EntryAllowed(name)
    ensures !HasDots(name) && !("/" <= name)
  {
    hide HasAllowedPrefix;
    assert "/"[0] != MANIFEST[0] && "/"[0] != README[0];
  }

  /**
    Whatever the zip, if validation accepts it, the extraction goes through exactly when no listed name needs another
    as its directory; and then the files written are those of the listed names and no others, each with a listed hash
    for its path, under an allowed name, inside the work directory.
    */
  lemma ExtractedWasChecked(c: Codec, file: File, password: string, revs: Revisions)
    requires Validate(c, file, password, revs).Accepted?
    ensures var checks := Validate(c, file, password, revs).manifest.checksums;
            var written := Extract(file.zip.value, password, checks);
            && (written.Some? <==> NoClash(checks))
            && (written.Some? ==>
                  && (forall i :: 0 <= i < |checks| ==> PathOf(checks[i].name) in written.value)
                  && (forall path :: path in written.value ==> path != [])
                  && (forall path :: path in written.value ==>
                        exists i :: 0 <= i < |checks| && PathOf(checks[i].name) == path && LastFor(checks, i)
                                    && EntryAllowed(checks[i].name) && checks[i].digest == c.hash(written.value[path])))
  {
    var checks := Validate(c, file, password, revs).manifest.checksums;
    var zip := file.zip.value;
    hide EntryAllowed, Read, Resolve, Split, NoClash, LastFor, PathOf;
    ScanChecksIff(c, zip, password, checks);
    forall i | 0 <= i < |checks|
      ensures EntryAllowed(checks[i].name) && Read(zip, password, checks[i].name).Contents?
      ensures c.hash(Read(zip, password, checks[i].name).data) == checks[i].digest && PathOf(checks[i].name) != []
    {
      assert CheckOne(c, zip, password, checks[i]) == None;
      AllowedStaysInside(checks[i].name);
    }
    hide Validate;
    ExtractIs(zip, password, checks);
  }

  /** A zip whose manifest is encrypted is never restored under another password. */
  lemma WrongPasswordIsRefused(c: Codec, file: File, password: string, revs: Revisions)
    requires file.zip.Some? && password != file.zip.value.password
    requires forall i :: 0 <= i < |file.zip.value.entries| && file.zip.value.entries[i].name == MANIFEST ==>
               file.zip.value.entries[i].encrypted
    ensures Validate(c, file, password, revs).Refused?
  {
    LockedRead(file.zip.value.entries, MANIFEST);
  }

  lemma {:induction false} LockedRead(entries: seq<Entry>, name: string)
    requires forall i :: 0 <= i < |entries| && entries[i].name == name ==> entries[i].encrypted
    ensures !ReadFrom(entries, false, name).Contents?
  {
    if entries != [] {
      LockedRead(entries[..|entries| - 1], name);
    }
  }

  // ------------------------------------------------------------------ a created backup

  lemma {:induction false} ReadPacked(files: map<string, Bytes>, order: seq<string>, compressed: string -> nat, unlocked: bool, name: string)
    requires forall i :: 0 <= i < |order| ==> order[i] in files
    ensures ReadFrom(Pack(files, order, compressed), unlocked, name)
         == if name !in order then NoSuchEntry else if unlocked then Contents(files[name]) else Undecryptable
  {
    if order != [] {
      var n := |order| - 1;
      ReadPacked(files, order[..n], compressed, unlocked, name);
      var entries := Pack(files, order, compressed);
      assert entries[..n] == Pack(files, order[..n], compressed);
      assert order == order[..n] + [order[n]];
    }
  }

  predicate AllAllowed(files: map<string, Bytes>) {
    forall n :: n in files ==> EntryAllowed(n)
  }

  /** The size and ratio limits a restore insists on. */
  predicate WithinLimits(file: File)
    requires file.zip.Some?
  {
    && file.size <= MAX_ZIP_BYTES
    && Total(file.zip.value.entries) <= MAX_UNCOMPRESSED_BYTES
    && forall i :: 0 <= i < |file.zip.value.entries| ==>
         file.zip.value.entries[i].declared <= MAX_COMPRESSION_RATIO * Max(1, file.zip.value.entries[i].compressed)
  }

  predicate KnownRevision(head: Option<string>, revs: Revisions) {
    Named(head) && revs.known != {} ==> head.value in revs.known
  }

  lemma EntriesOkIff(c: Codec, collected: map<string, Bytes>, job: Job, password: string, compressed: string -> nat)
    requires JobFits(c, collected, job)
    ensures var entries := Create(c, collected, job, password, compressed).entries;
            (forall i :: 0 <= i < |entries| ==> EntryOk(entries[i])) <==>
              && AllAllowed(Kept(collected))
              && forall i :: 0 <= i < |entries| ==>
                   entries[i].declared <= MAX_COMPRESSION_RATIO * Max(1, entries[i].compressed)
  {
    hide Clash, RealName, Split, Sums, ManifestOf;
    var files := WorkDir(c, collected, job);
    var entries := Create(c, collected, job, password, compressed).entries;
    NoDirectories(c, collected, job);
    FixedNamesAllowed();
    assert forall n :: n in Kept(collected) ==> n in files;
    assert forall n :: n in files ==> n in Kept(collected) || n == MANIFEST || n == README;
    hide IsDirectory, EntryAllowed, Kept, WorkDir, Max;
    if forall i :: 0 <= i < |entries| ==> EntryOk(entries[i]) {
      forall n | n in Kept(collected) ensures EntryAllowed(n)
      {
        assert n in job.all;
        var i :| 0 <= i < |job.all| && job.all[i] == n;
        assert EntryOk(entries[i]);
      }
    }
    if AllAllowed(Kept(collected)) {
      forall i | 0 <= i < |entries| ensures EntryAllowed(entries[i].name)
      {
        assert job.all[i] in files;
      }
    }
  }

  lemma FixedNamesAllowed()
    ensures EntryAllowed(MANIFEST) && EntryAllowed(README)
  {
  }

  lemma NoDirectories(c: Codec, collected: map<string, Bytes>, job: Job)
    requires JobFits(c, collected, job)
    ensures forall i :: 0 <= i < |job.all| ==> !IsDirectory(job.all[i])
  {
    FixedNames();
    hide RealName, IsDirectory, IsEnv, Clash, ManifestOf;
    forall i | 0 <= i < |job.all| ensures !IsDirectory(job.all[i])
    {
      assert job.all[i] in WorkDir(c, collected, job);
      assert RealName(job.all[i]);
      RealPath(job.all[i]);
    }
  }

  lemma ReadCreated(c: Codec, collected: map<string, Bytes>, job: Job, password: string, compressed: string -> nat, name: string)
    requires JobFits(c, collected, job) && name in Kept(collected)
    ensures Read(Create(c, collected, job, password, compressed), password, name) == Contents(Kept(collected)[name])
  {
    var files := WorkDir(c, collected, job);
    assert name in files && files[name] == Kept(collected)[name];
    assert name in job.all;
    hide Kept, WorkDir;
    ReadPacked(files, job.all, compressed, true, name);
  }

  lemma ChecksPass(c: Codec, collected: map<string, Bytes>, job: Job, password: string, compressed: string -> nat)
    requires JobFits(c, collected, job) && AllAllowed(Kept(collected))
    ensures var zip := Create(c, collected, job, password, compressed);
            ScanChecks(c, zip, password, ManifestOf(c, collected, job).checksums) == None
  {
    hide Create, Kept, WorkDir, Read, EntryAllowed, ScanChecks;
    var zip := Create(c, collected, job, password, compressed);
    var checks := ManifestOf(c, collected, job).checksums;
    forall i | 0 <= i < |checks| ensures CheckOne(c, zip, password, checks[i]) == None
    {
      assert job.order[i] in job.order && job.order[i] in Kept(collected);
      ReadCreated(c, collected, job, password, compressed, job.order[i]);
    }
    ScanChecksIff(c, zip, password, checks);
  }

  /** The files a restore should leave: the collected ones, each at its own path. */
  ghost predicate SameFiles(files: map<seq<string>, Bytes>, collected: map<string, Bytes>) {
    && (forall n :: n in collected ==> PathOf(n) in files && files[PathOf(n)] == collected[n])
    && (forall path :: path in files ==> exists n :: n in collected && PathOf(n) == path)
  }

  lemma DistinctPaths(c: Codec, collected: map<string, Bytes>, job: Job, m: string, n: string)
    requires JobFits(c, collected, job) && m in collected && n in collected
    ensures PathOf(m) == PathOf(n) <==> m == n
    ensures !Clash(PathOf(m), PathOf(n)) && PathOf(m) != []
  {
    RealPath(m);
    RealPath(n);
    JoinUndoesSplit(m, '/');
    JoinUndoesSplit(n, '/');
  }

  lemma ExtractsKept(c: Codec, collected: map<string, Bytes>, job: Job, password: string, compressed: string -> nat)
    requires JobFits(c, collected, job)
    ensures var r := Extract(Create(c, collected, job, password, compressed), password, ManifestOf(c, collected, job).checksums);
            r.Some? && SameFiles(r.value, Kept(collected))
  {
    var zip := Create(c, collected, job, password, compressed);
    var checks := ManifestOf(c, collected, job).checksums;
    ReadsKept(c, collected, job, password, compressed);
    PathsApart(c, collected, job);
    hide JobFits, Create, Extract, Holds, ManifestOf, SameFiles;
    ExtractIs(zip, password, checks);
    HoldsKept(zip, password, checks, Extract(zip, password, checks).value, Kept(collected));
  }

  /** The checks name exactly the files, and each of them reads as it was. */
  ghost predicate ReadsAs(zip: Zip, password: string, checks: seq<Check>, files: map<string, Bytes>) {
    && (forall i :: 0 <= i < |checks| ==>
          checks[i].name in files && Read(zip, password, checks[i].name) == Contents(files[checks[i].name]))
    && (forall n :: n in files ==> exists i :: 0 <= i < |checks| && checks[i].name == n)
  }

  lemma ReadsKept(c: Codec, collected: map<string, Bytes>, job: Job, password: string, compressed: string -> nat)
    requires JobFits(c, collected, job)
    ensures ReadsAs(Create(c, collected, job, password, compressed), password, ManifestOf(c, collected, job).checksums, Kept(collected))
  {
    hide Create, Kept, WorkDir, Read, RealName, Clash;
    var checks := ManifestOf(c, collected, job).checksums;
    forall i | 0 <= i < |checks|
      ensures checks[i].name in Kept(collected)
      ensures Read(Create(c, collected, job, password, compressed), password, checks[i].name)
              == Contents(Kept(collected)[checks[i].name])
    {
      assert job.order[i] in job.order;
      ReadCreated(c, collected, job, password, compressed, job.order[i]);
    }
    forall n | n in Kept(collected) ensures exists i :: 0 <= i < |checks| && checks[i].name == n
    {
      assert n in job.order;
      var i :| 0 <= i < |job.order| && job.order[i] == n;
      assert checks[i].name == n;
    }
  }

  lemma PathsApart(c: Codec, collected: map<string, Bytes>, job: Job)
    requires JobFits(c, collected, job)
    ensures NoClash(ManifestOf(c, collected, job).checksums)
    ensures forall m, n :: m in Kept(collected) && n in Kept(collected) && PathOf(m) == PathOf(n) ==> m == n
    ensures forall n :: n in Kept(collected) ==> PathOf(n) != []
  {
    forall m, n | m in Kept(collected) && n in Kept(collected)
      ensures PathOf(m) == PathOf(n) <==> m == n
      ensures !Clash(PathOf(m), PathOf(n)) && PathOf(m) != []
    {
      DistinctPaths(c, collected, job, m, n);
    }
    hide PathOf, Clash, Kept, RealName, WorkDir;
    var checks := ManifestOf(c, collected, job).checksums;
    forall i | 0 <= i < |checks| ensures checks[i].name in Kept(collected)
    {
      assert job.order[i] in job.order;
    }
  }

  lemma HoldsKept(zip: Zip, password: string, checks: seq<Check>, files: map<seq<string>, Bytes>, kept: map<string, Bytes>)
    requires Holds(zip, password, checks, files) && ReadsAs(zip, password, checks, kept)
    requires forall m, n :: m in kept && n in kept && PathOf(m) == PathOf(n) ==> m == n
    ensures SameFiles(files, kept)
  {
    hide PathOf, Read;
    forall n | n in kept ensures PathOf(n) in files && files[PathOf(n)] == kept[n]
    {
      var i :| 0 <= i < |checks| && checks[i].name == n;
      var k :| 0 <= k < |checks| && PathOf(checks[k].name) == PathOf(n) && Read(zip, password, checks[k].name) == Contents(files[PathOf(n)]);
      assert checks[k].name == n;
    }
    forall path | path in files ensures exists n :: n in kept && PathOf(n) == path
    {
      var k :| 0 <= k < |checks| && PathOf(checks[k].name) == path && Read(zip, password, checks[k].name) == Contents(files[path]);
      assert checks[k].name in kept;
    }
  }

  /**
    Round trip: a created backup is accepted exactly when it is within the size and ratio limits, the password is the
    one it was made with, every collected name is allowed and its migration is known; and then exactly the collected
    files, less any .env file, are extracted.
    */
  lemma RoundTrip(c: Codec, collected: map<string, Bytes>, job: Job, password: string, compressed: string -> nat,
                  size: nat, given: string, revs: Revisions)
    requires JobFits(c, collected, job)
    requires forall m :: c.load(c.dump(m)) == Some(m)
    ensures var zip := Create(c, collected, job, password, compressed);
            var file := File(size, Some(zip));
            var verdict := Validate(c, file, given, revs);
            var m := ManifestOf(c, collected, job);
            && (verdict.Accepted? <==>
                  WithinLimits(file) && given == password && AllAllowed(Kept(collected)) && KnownRevision(job.head, revs))
            && (verdict.Accepted? ==>
                  && verdict == Accepted(m, Named(job.head) && revs.known != {} && job.head != revs.head)
                  && Extract(zip, given, m.checksums).Some?
                  && SameFiles(Extract(zip, given, m.checksums).value, Kept(collected)))
  {
    hide SameFiles, Create, Extract, Kept, ScanEntries, Total, Read, AllAllowed, JudgeManifest, KnownRevision, JobFits, Sums;
    ScanEntriesIff(Create(c, collected, job, password, compressed).entries);
    EntriesOkIff(c, collected, job, password, compressed);
    ReadManifest(c, collected, job, password, compressed, given);
    ExtractsKept(c, collected, job, password, compressed);
    if AllAllowed(Kept(collected)) {
      JudgeCreated(c, collected, job, password, compressed, revs);
    }
  }

  lemma ReadManifest(c: Codec, collected: map<string, Bytes>, job: Job, password: string, compressed: string -> nat, given: string)
    requires JobFits(c, collected, job)
    ensures Read(Create(c, collected, job, password, compressed), given, MANIFEST)
         == if given == password then Contents(c.dump(ManifestOf(c, collected, job))) else Undecryptable
  {
    assert MANIFEST in WorkDir(c, collected, job) && MANIFEST in job.all && MANIFEST != README;
    ReadPacked(WorkDir(c, collected, job), job.all, compressed, given == password, MANIFEST);
  }

  /** The restore instructions are packed as they are. */
  lemma ReadmeIsPacked(c: Codec, collected: map<string, Bytes>, job: Job, password: string, compressed: string -> nat)
    requires JobFits(c, collected, job)
    ensures Read(Create(c, collected, job, password, compressed), password, "README-RESTORE.md") == Contents(job.readme)
  {
    hide RealName, Clash, Split, Kept, ManifestOf;
    assert README in WorkDir(c, collected, job) && README in job.all;
    ReadPacked(WorkDir(c, collected, job), job.all, compressed, true, README);
  }

  lemma JudgeCreated(c: Codec, collected: map<string, Bytes>, job: Job, password: string, compressed: string -> nat, revs: Revisions)
    requires JobFits(c, collected, job) && AllAllowed(Kept(collected))
    ensures var m := ManifestOf(c, collected, job);
            JudgeManifest(c, Create(c, collected, job, password, compressed), password, revs, m)
            == (if KnownRevision(job.head, revs)
                then Accepted(m, Named(job.head) && revs.known != {} && job.head != revs.head)
                else Refused(UnknownRevision))
  {
    ChecksPass(c, collected, job, password, compressed);
    hide ScanChecks, Create, Kept, WorkDir, Sums, JobFits;
  }

  /** No .env file is in the zip, whatever was collected. */
  lemma NoEnvFile(c: Codec, collected: map<string, Bytes>, job: Job, password: string, compressed: string -> nat)
    requires JobFits(c, collected, job)
    ensures forall i :: 0 <= i < |job.all| ==> !IsEnv(Create(c, collected, job, password, compressed).entries[i].name)
  {
    FixedNames();
    hide IsEnv;
    forall i | 0 <= i < |job.all| ensures !IsEnv(job.all[i])
    {
      assert job.all[i] in WorkDir(c, collected, job);
    }
  }

  lemma NotEnv(name: string)
    requires PlainPart(name)
    ensures !IsEnv(name) && RealName(name)
  {
    WholePart(name);
    hide Split;
    assert ".env"[0] == '.';
  }

  lemma FixedNames()
    ensures PlainPart(MANIFEST) && PlainPart(README)
    ensures !IsEnv(MANIFEST) && !IsEnv(README) && RealName(MANIFEST) && RealName(README)
  {
    hide IsEnv, RealName;
    NotEnv(MANIFEST);
    NotEnv(README);
  }

  /** The last part of a path, and what comes before it. */
  lemma {:induction false} LastPart(path: string) returns (before: string)
    ensures path == before + BaseName(path) && '/' !in BaseName(path)
    ensures before == "" || before[|before| - 1] == '/'
  {
    if path == [] {
      before := [];
    } else {
      BaseNameStep(path);
      var rest := LastPart(path[1..]);
      if rest == [] {
        WholePart(path[1..]);
      }
      hide BaseName, Split;
      var whole := path[0] != '/' && |Split(path[1..], '/')| == 1;
      before := if whole then [] else [path[0]] + rest;
      assert path == [path[0]] + path[1..];
      Assoc([path[0]], rest, BaseName(path[1..]));
      assert rest == [] ==> rest + BaseName(path[1..]) == BaseName(path[1..]);
    }
  }

  lemma BaseNameStep(path: string)
    requires path != []
    ensures var one := |Split(path[1..], '/')| == 1;
            && BaseName(path) == (if path[0] != '/' && one then path else BaseName(path[1..]))
            && (one ==> BaseName(path[1..]) == path[1..])
  {
    var parts, all := Split(path[1..], '/'), Split(path, '/');
    JoinOne(path[1..]);
    assert path == [path[0]] + path[1..];
    assert all == if path[0] == '/' then [[]] + parts else [[path[0]] + parts[0]] + parts[1..];
    hide Split;
    assert |parts| == 1 ==> PyText.Join("/", parts) == parts[0];
    assert |parts| > 1 ==> parts[1..][|parts| - 2] == parts[|parts| - 1];
  }

  lemma JoinOne(s: string)
    ensures PyText.Join("/", Split(s, '/')) == s
  {
    JoinUndoesSplit(s, '/');
    assert ['/'] == "/";
  }

  /** What is collected and not packed: files whose name, behind the last slash, starts with .env, and no others. */
  lemma KeptIff(collected: map<string, Bytes>, n: string)
    ensures n in Kept(collected) <==>
              n in collected && !exists before: string, base: string ::
                n == before + base && '/' !in base && (before == "" || before[|before| - 1] == '/') && ".env" <= base
    ensures n in Kept(collected) ==> Kept(collected)[n] == collected[n]
  {
    var dir := LastPart(n);
    assert n == dir + BaseName(n);
    forall before: string, base: string | n == before + base && '/' !in base && (before == "" || before[|before| - 1] == '/')
      ensures base == BaseName(n)
    {
      OneLastPart(dir, BaseName(n), before, base);
    }
    hide BaseName;
  }

  lemma OneLastPart(a: string, x: string, b: string, y: string)
    requires a + x == b + y && '/' !in x && '/' !in y
    requires (a == "" || a[|a| - 1] == '/') && (b == "" || b[|b| - 1] == '/')
    ensures x == y
  {
    NoLonger(a, x, b, y);
    NoLonger(b, y, a, x);
    assert (a + x)[|a|..] == x && (b + y)[|b|..] == y;
  }

  lemma NoLonger(a: string, x: string, b: string, y: string)
    requires a + x == b + y && '/' !in x && (b == "" || b[|b| - 1] == '/')
    ensures |b| <= |a|
  {
    assert forall i :: |a| <= i < |a + x| ==> (a + x)[i] == x[i - |a|];
    assert |b| > 0 ==> (b + y)[|b| - 1] == '/';
  }

  /**
    Which refusal it is: the first check that fails, in this order - size, readability, entries, total, manifest - and
    each for its own reason.
    */
  lemma RefusedFor(c: Codec, file: File, password: string, revs: Revisions)
    ensures var v := Validate(c, file, password, revs);
            && (v == Refused(TooBig) <==> file.size > 2_147_483_648)
            && (v == Refused(Corrupt) <==> file.size <= 2_147_483_648 && file.zip == None)
            && (file.size <= 2_147_483_648 && file.zip.Some? ==>
                  var zip := file.zip.value;
                  var fine := forall i :: 0 <= i < |zip.entries| ==> EntryFine(zip.entries[i]);
                  && (v in {Refused(NotAllowed), Refused(SuspiciousRatio)} <==> !fine)
                  && (forall i :: FirstBad(zip.entries, i) ==>
                        v == Refused(if NameFine(zip.entries[i].name) then SuspiciousRatio else NotAllowed))
                  && (v == Refused(TooMuch) <==> fine && Total(zip.entries) > 4_294_967_296)
                  && (fine && Total(zip.entries) <= 4_294_967_296 ==>
                        var r := Read(zip, password, "manifest.json");
                        && (v == Refused(NoManifest) <==> r == NoSuchEntry)
                        && (r == Undecryptable ==> v == Refused(WrongPassword))
                        && (v == Refused(BadManifest) <==> r.Contents? && c.load(r.data) == None)
                        && (r.Contents? && c.load(r.data).Some? ==> v == JudgeManifest(c, zip, password, revs, c.load(r.data).value))))
  {
    assert MANIFEST == "manifest.json";
    if file.zip.Some? {
      var zip := file.zip.value;
      ScanEntriesIff(zip.entries);
      ScanReasons(zip.entries);
      forall i | FirstBad(zip.entries, i)
        ensures ScanEntries(zip.entries) == Some(if NameFine(zip.entries[i].name) then SuspiciousRatio else NotAllowed)
      {
        ScanFindsFirst(zip.entries, i);
      }
      forall e ensures EntryOk(e) <==> EntryFine(e)
      {
        FineIffOk(e);
      }
      forall m
        ensures JudgeManifest(c, zip, password, revs, m) !in
                  {Refused(TooBig), Refused(Corrupt), Refused(NotAllowed), Refused(SuspiciousRatio), Refused(TooMuch), Refused(NoManifest),
                   Refused(BadManifest)}
      {
        JudgeReasons(c, zip, password, revs, m);
      }
    }
    hide EntryFine, EntryOk, NameFine, FirstBad, Total, Read, ScanEntries, JudgeManifest, MANIFEST;
  }

  /** Entry i is the first that may not be. */
  predicate FirstBad(entries: seq<Entry>, i: int) {
    0 <= i < |entries| && !EntryFine(entries[i]) && forall j :: 0 <= j < i ==> EntryFine(entries[j])
  }

  lemma {:induction false} ScanFindsFirst(entries: seq<Entry>, i: nat)
    requires FirstBad(entries, i)
    ensures ScanEntries(entries) == Some(if NameFine(entries[i].name) then SuspiciousRatio else NotAllowed)
    decreases i
  {
    FineIffOk(entries[0]);
    AllowedIffFine(entries[0].name);
    hide EntryFine, EntryOk, NameFine, EntryAllowed;
    if i > 0 {
      assert entries[1..][i - 1] == entries[i] && forall j :: 0 <= j < i - 1 ==> entries[1..][j] == entries[j + 1];
      ScanFindsFirst(entries[1..], i - 1);
    }
  }

  /** A listed checksum that is right: a fine name, an entry that opens, and its hash. */
  predicate CheckFine(c: Codec, zip: Zip, password: string, k: Check) {
    var r := Read(zip, password, k.name);
    NameFine(k.name) && r.Contents? && c.hash(r.data) == k.digest
  }

  lemma CheckFor(c: Codec, zip: Zip, password: string, k: Check)
    ensures var r := Read(zip, password, k.name);
            CheckOne(c, zip, password, k)
            == if CheckFine(c, zip, password, k) then None
               else Some(if !NameFine(k.name) then CheckNotAllowed else if r == NoSuchEntry then MissingEntry
                         else if r == Undecryptable then WrongPassword else BadChecksum)
  {
    AllowedIffFine(k.name);
    hide NameFine, EntryAllowed, Read;
  }

  lemma {:induction false} ChecksFindFirst(c: Codec, zip: Zip, password: string, checks: seq<Check>, i: nat)
    requires i < |checks| && !CheckFine(c, zip, password, checks[i])
    requires forall j :: 0 <= j < i ==> CheckFine(c, zip, password, checks[j])
    ensures ScanChecks(c, zip, password, checks) == CheckOne(c, zip, password, checks[i])
    decreases i
  {
    hide CheckFine, CheckOne;
    CheckFor(c, zip, password, checks[0]);
    if i > 0 {
      assert checks[1..][i - 1] == checks[i] && forall j :: 0 <= j < i - 1 ==> checks[1..][j] == checks[j + 1];
      ChecksFindFirst(c, zip, password, checks[1..], i - 1);
    }
  }

  /** How a manifest is judged: format, application, the checksums in order, each failing for its own reason, and the migration. */
  lemma JudgedFor(c: Codec, zip: Zip, password: string, revs: Revisions, m: Manifest)
    ensures var v := JudgeManifest(c, zip, password, revs, m);
            if m.format != Some(1) then v == Refused(BadFormat)
            else if m.app != Some("wardnode") then v == Refused(WrongApp)
            else
              && (forall i :: 0 <= i < |m.checksums| && !CheckFine(c, zip, password, m.checksums[i])
                              && (forall j :: 0 <= j < i ==> CheckFine(c, zip, password, m.checksums[j])) ==>
                    var k := m.checksums[i];
                    var r := Read(zip, password, k.name);
                    v == Refused(if !NameFine(k.name) then CheckNotAllowed else if r == NoSuchEntry then MissingEntry
                                 else if r == Undecryptable then WrongPassword else BadChecksum))
              && ((forall i :: 0 <= i < |m.checksums| ==> CheckFine(c, zip, password, m.checksums[i])) ==>
                    var named := m.head.Some? && m.head.value != "" && revs.known != {};
                    v == if named && m.head.value !in revs.known then Refused(UnknownRevision)
                         else Accepted(m, named && m.head != revs.head))
  {
    ScanChecksIff(c, zip, password, m.checksums);
    forall k ensures CheckOne(c, zip, password, k) == None <==> CheckFine(c, zip, password, k)
    {
      CheckFor(c, zip, password, k);
    }
    forall i | 0 <= i < |m.checksums| && !CheckFine(c, zip, password, m.checksums[i])
               && (forall j :: 0 <= j < i ==> CheckFine(c, zip, password, m.checksums[j]))
      ensures ScanChecks(c, zip, password, m.checksums) == CheckOne(c, zip, password, m.checksums[i])
    {
      ChecksFindFirst(c, zip, password, m.checksums, i);
    }
    forall i | 0 <= i < |m.checksums|
      ensures var k := m.checksums[i];
              var r := Read(zip, password, k.name);
              !CheckFine(c, zip, password, k) ==>
                CheckOne(c, zip, password, k)
                == Some(if !NameFine(k.name) then CheckNotAllowed else if r == NoSuchEntry then MissingEntry
                        else if r == Undecryptable then WrongPassword else BadChecksum)
    {
      CheckFor(c, zip, password, m.checksums[i]);
    }
    hide CheckOne, CheckFine, ScanChecks, NameFine, Read;
  }

  lemma {:induction false} ScanReasons(entries: seq<Entry>)
    ensures ScanEntries(entries) in {None, Some(NotAllowed), Some(SuspiciousRatio)}
  {
    hide EntryOk, EntryAllowed;
    if entries != [] {
      ScanReasons(entries[1..]);
    }
  }

  lemma {:induction false} CheckReasons(c: Codec, zip: Zip, password: string, checks: seq<Check>)
    ensures ScanChecks(c, zip, password, checks) in
              {None, Some(CheckNotAllowed), Some(MissingEntry), Some(WrongPassword), Some(BadChecksum)}
    decreases checks
  {
    hide EntryAllowed, Read;
    if checks != [] {
      CheckReasons(c, zip, password, checks[1..]);
    }
  }

  lemma JudgeReasons(c: Codec, zip: Zip, password: string, revs: Revisions, m: Manifest)
    ensures JudgeManifest(c, zip, password, revs, m).Accepted? ||
            JudgeManifest(c, zip, password, revs, m).reason in
              {BadFormat, WrongApp, CheckNotAllowed, MissingEntry, WrongPassword, BadChecksum, UnknownRevision}
  {
    CheckReasons(c, zip, password, m.checksums);
    hide ScanChecks;
  }

  // ------------------------------------------------------------------ the loops

  /** validate_backup_zip: one pass over the listed entries, one over the checksums. */
  method ValidateBackupZip(c: Codec, file: File, password: string, revs: Revisions) returns (verdict: Verdict)
    ensures verdict == Validate(c, file, password, revs)
  {
    if file.size > MAX_ZIP_BYTES {
      return Refused(TooBig);
    }
    if file.zip.None? {
      return Refused(Corrupt);
    }
    var zip := file.zip.value;
    hide EntryAllowed, ReadFrom, JudgeManifest, ScanChecks;
    var total := 0;
    var i := 0;
    while i < |zip.entries|
      invariant i <= |zip.entries|
      invariant ScanEntries(zip.entries) == ScanEntries(zip.entries[i..])
      invariant total + Total(zip.entries[i..]) == Total(zip.entries)
    {
      var e := zip.entries[i];
      assert zip.entries[i..][0] == e && zip.entries[i..][1..] == zip.entries[i + 1..];
      i := i + 1;
      if IsDirectory(e.name) {
        continue;
      }
      if !EntryAllowed(e.name) {
        return Refused(NotAllowed);
      }
      total := total + e.declared;
      if e.declared > MAX_COMPRESSION_RATIO * Max(1, e.compressed) {
        return Refused(SuspiciousRatio);
      }
    }
    if total > MAX_UNCOMPRESSED_BYTES {
      return Refused(TooMuch);
    }
    var raw := Read(zip, password, MANIFEST);
    if raw.NoSuchEntry? {
      return Refused(NoManifest);
    }
    if raw.Undecryptable? {
      return Refused(WrongPassword);
    }
    var m := c.load(raw.data);
    if m.None? {
      return Refused(BadManifest);
    }
    verdict := JudgeManifestLoop(c, zip, password, revs, m.value);
  }

  method JudgeManifestLoop(c: Codec, zip: Zip, password: string, revs: Revisions, m: Manifest) returns (verdict: Verdict)
    ensures verdict == JudgeManifest(c, zip, password, revs, m)
  {
    if m.format != Some(1) {
      return Refused(BadFormat);
    }
    if m.app != Some("wardnode") {
      return Refused(WrongApp);
    }
    hide CheckOne;
    var i := 0;
    while i < |m.checksums|
      invariant i <= |m.checksums|
      invariant ScanChecks(c, zip, password, m.checksums) == ScanChecks(c, zip, password, m.checksums[i..])
    {
      assert m.checksums[i..][0] == m.checksums[i] && m.checksums[i..][1..] == m.checksums[i + 1..];
      var objection := CheckOne(c, zip, password, m.checksums[i]);
      if objection.Some? {
        return Refused(objection.value);
      }
      i := i + 1;
    }
    var needsUpgrade := false;
    if Named(m.head) && revs.known != {} {
      if m.head.value !in revs.known {
        return Refused(UnknownRevision);
      }
      if m.head != revs.head {
        needsUpgrade := true;
      }
    }
    return Accepted(m, needsUpgrade);
  }

  /** How a restore ends: refused, stopped by an exception while extracting, or with these files. */
  datatype Restored = Rejected | Raised | Written(files: map<seq<string>, Bytes>)

  /** restore_backup up to the work directory: nothing is written unless validation accepted the zip. */
  method RestoreFiles(c: Codec, file: File, password: string, revs: Revisions) returns (r: Restored)
    ensures r == Rejected <==> Validate(c, file, password, revs).Refused?
    ensures r != Rejected ==>
              var files := Extract(file.zip.value, password, Validate(c, file, password, revs).manifest.checksums);
              r == if files.Some? then Written(files.value) else Raised
  {
    var verdict := ValidateBackupZip(c, file, password, revs);
    if verdict.Refused? {
      return Rejected;
    }
    var checks := verdict.manifest.checksums;
    var zip := file.zip.value;
    hide Validate, PathOf, WriteFile;
    var files: map<seq<string>, Bytes> := map[];
    var i := 0;
    while i < |checks|
      invariant i <= |checks|
      invariant Extract(zip, password, checks[..i]) == Some(files)
    {
      assert checks[..i + 1][..i] == checks[..i] && checks[..i + 1][i] == checks[i];
      var data := Read(zip, password, checks[i].name);
      if !data.Contents? {
        StaysRaised(zip, password, checks, i + 1);
        return Raised;
      }
      var next := WriteFile(files, PathOf(checks[i].name), data.data);
      if next.None? {
        StaysRaised(zip, password, checks, i + 1);
        return Raised;
      }
      files := next.value;
      i := i + 1;
    }
    assert checks[..i] == checks;
    return Written(files);
  }

  lemma {:induction false} StaysRaised(zip: Zip, password: string, checks: seq<Check>, i: nat)
    requires i <= |checks| && Extract(zip, password, checks[..i]) == None
    ensures Extract(zip, password, checks) == None
    decreases |checks| - i
  {
    if i < |checks| {
      assert checks[..i + 1][..i] == checks[..i];
      StaysRaised(zip, password, checks, i + 1);
    } else {
      assert checks[..i] == checks;
    }
  }

  method Checksums(c: Codec, files: map<string, Bytes>, order: seq<string>) returns (checks: seq<Check>)
    requires forall i :: 0 <= i < |order| ==> order[i] in files
    ensures checks == Sums(c, files, order)
  {
    checks := [];
    var i := 0;
    while i < |order|
      invariant i <= |order|
      invariant checks == Sums(c, files, order[..i])
    {
      assert order[..i + 1][..i] == order[..i] && order[..i + 1][i] == order[i];
      checks := checks + [Check(order[i], c.hash(files[order[i]]))];
      i := i + 1;
    }
    assert order[..i] == order;
  }

  method PackFiles(files: map<string, Bytes>, order: seq<string>, compressed: string -> nat) returns (entries: seq<Entry>)
    requires forall i :: 0 <= i < |order| ==> order[i] in files
    ensures entries == Pack(files, order, compressed)
  {
    entries := [];
    var i := 0;
    while i < |order|
      invariant i <= |order|
      invariant entries == Pack(files, order[..i], compressed)
    {
      var n := order[i];
      assert order[..i + 1][..i] == order[..i] && order[..i + 1][i] == n;
      entries := entries + [Entry(n, |files[n]|, compressed(n), true, files[n])];
      i := i + 1;
    }
    assert order[..i] == order;
  }

  /** The packing part of create: checksums of the kept files, then one encrypted entry per file of the work directory. */
  method CreateZip(c: Codec, collected: map<string, Bytes>, job: Job, password: string, compressed: string -> nat)
    returns (zip: Zip)
    requires JobFits(c, collected, job)
    ensures zip == Create(c, collected, job, password, compressed)
  {
    hide Sums, Pack, IsEnv, Kept;
    var files := Kept(collected);
    var checks := Checksums(c, files, job.order);
    var manifest := c.dump(Manifest(Some(1), Some("wardnode"), checks, job.head));
    var workdir := files[MANIFEST := manifest][README := job.readme];
    var entries := PackFiles(workdir, job.all, compressed);
    return Zip(password, entries);
  }
}
