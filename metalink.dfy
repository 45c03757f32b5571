/** The metalink descriptor of metalink.c: the conversion of the tree
    that libmetalink parses into wget's own `mlink` lists, and the two
    "election" passes that unlink resources and checksums in place.

    Linked lists are modelled as sequences in list order; unlinking a
    node removes it from the sequence. A pass that reaches undefined
    behaviour (reading through a null pointer, reading a freed node, or
    leaving a freed node as the head) reports that instead of a list. */
module Metalink {
  import opened Common

  // ---------------------------------------------------------------
  // The tree handed over by libmetalink (absent fields are None)
  // ---------------------------------------------------------------

  datatype MlResource = MlResource(url: Option<string>, rtype: Option<string>,
                                   location: Option<string>, preference: int, maxconnections: int)

  datatype MlChecksum = MlChecksum(ctype: Option<string>, hash: Option<string>)

  datatype MlPieceHash = MlPieceHash(piece: int, hash: Option<string>)

  datatype MlChunkChecksum = MlChunkChecksum(ctype: Option<string>, length: int, pieceHashes: seq<MlPieceHash>)

  datatype MlFile = MlFile(name: Option<string>, size: int, maxconnections: int,
                           version: Option<string>, language: Option<string>, os: Option<string>,
                           resources: Option<seq<MlResource>>, checksums: seq<MlChecksum>,
                           chunkChecksum: Option<MlChunkChecksum>)

  datatype MlMetalink = MlMetalink(identity: Option<string>, tags: Option<string>, files: Option<seq<MlFile>>)

  // ---------------------------------------------------------------
  // wget's descriptor: mlink, mlink_file, mlink_resource, mlink_checksum
  // ---------------------------------------------------------------

  datatype Resource = Resource(url: string, rtype: Option<string>, location: Option<string>,
                               preference: int, maxconnections: int)

  datatype Checksum = Checksum(ctype: string, hash: string)

  datatype ChunkChecksum = ChunkChecksum(length: int, ctype: string)

  datatype File = File(name: string, size: int, maxconnections: int,
                       version: Option<string>, language: Option<string>, os: Option<string>,
                       resources: seq<Resource>, numOfRes: nat,
                       checksums: seq<Checksum>, numOfChecksums: nat,
                       chunkChecksum: Option<ChunkChecksum>)

  datatype Mlink = Mlink(identity: Option<string>, tags: Option<string>, files: seq<File>, numOfFiles: nat)

  // ---------------------------------------------------------------
  // parse_metalink
  // ---------------------------------------------------------------

  /** A resource is kept when it has a URL. */
  function ConvertResource(r: MlResource): Option<Resource>
  {
    if r.url.None? then None
    else Some(Resource(r.url.value, r.rtype, r.location, r.preference, r.maxconnections))
  }

  /** A checksum is kept when it has both a type and a hash. */
  function ConvertChecksum(c: MlChecksum): Option<Checksum>
  {
    if c.ctype.None? || c.hash.None? then None else Some(Checksum(c.ctype.value, c.hash.value))
  }

  /** A file is kept when it has a name and a resource list. Its lists
      hold the kept entries, most recent first, since each is prepended;
      its checksum count is never incremented and no chunk checksum is
      ever attached to it. */
  function ConvertFile(f: MlFile): Option<File>
  {
    if f.name.None? || f.resources.None? then None
    else
      var res := Collect(f.resources.value, ConvertResource);
      Some(File(f.name.value, f.size, f.maxconnections, f.version, f.language, f.os,
                Reverse(res), |res|,
                Reverse(Collect(f.checksums, ConvertChecksum)), 0, None))
  }

  /** The descriptor parse_metalink builds from a parsed tree with a
      file list: the kept files, most recent first, and their number. */
  function Descriptor(m: MlMetalink): Mlink
    requires m.files.Some?
  {
    var kept := Collect(m.files.value, ConvertFile);
    Mlink(m.identity, m.tags, Reverse(kept), |kept|)
  }

  /** The prepending loop over one kept file's resources and checksums. */
  method ParseFile(f: MlFile) returns (file: File)
    requires f.name.Some? && f.resources.Some?
    ensures ConvertFile(f) == Some(file)
  {
    var rs := f.resources.value;
    var resources: seq<Resource> := [];
    var numOfRes := 0;
    var i := 0;
    while i < |rs|
      invariant 0 <= i <= |rs|
      invariant resources == Reverse(Collect(rs[..i], ConvertResource))
      invariant numOfRes == |Collect(rs[..i], ConvertResource)|
    {
      PrependCollectStep(rs, i, ConvertResource);
      if rs[i].url.Some? {
        var resource := Resource(rs[i].url.value, rs[i].rtype, rs[i].location,
                                 rs[i].preference, rs[i].maxconnections);
        numOfRes := numOfRes + 1;
        resources := [resource] + resources;
      }
      i := i + 1;
    }
    assert rs[..|rs|] == rs;

    var cs := f.checksums;
    var checksums: seq<Checksum> := [];
    i := 0;
    while i < |cs|
      invariant 0 <= i <= |cs|
      invariant checksums == Reverse(Collect(cs[..i], ConvertChecksum))
    {
      PrependCollectStep(cs, i, ConvertChecksum);
      if cs[i].ctype.Some? && cs[i].hash.Some? {
        var checksum := Checksum(cs[i].ctype.value, cs[i].hash.value);
        checksums := [checksum] + checksums;
      }
      i := i + 1;
    }
    assert cs[..|cs|] == cs;
    // A chunk checksum with a type is copied into a block that is never
    // linked to the file, so the file's chunk checksum stays null.
    file := File(f.name.value, f.size, f.maxconnections, f.version, f.language, f.os,
                 resources, numOfRes, checksums, 0, None);
  }

  /** parse_metalink: null when libmetalink failed (`parsed` is None)
      or the tree has no file list; otherwise the descriptor. */
  method ParseMetalink(parsed: Option<MlMetalink>) returns (r: Option<Mlink>)
    ensures parsed.None? || parsed.value.files.None? ==> r.None?
    ensures parsed.Some? && parsed.value.files.Some? ==> r == Some(Descriptor(parsed.value))
  {
    if parsed.None? {
      return None;
    }
    var m := parsed.value;
    if m.files.None? {
      return None;
    }
    var fs := m.files.value;
    var files: seq<File> := [];
    var numOfFiles := 0;
    var i := 0;
    while i < |fs|
      invariant 0 <= i <= |fs|
      invariant files == Reverse(Collect(fs[..i], ConvertFile))
      invariant numOfFiles == |Collect(fs[..i], ConvertFile)|
    {
      PrependCollectStep(fs, i, ConvertFile);
      if fs[i].name.Some? && fs[i].resources.Some? {
        var file := ParseFile(fs[i]);
        numOfFiles := numOfFiles + 1;
        files := [file] + files;
      }
      i := i + 1;
    }
    assert fs[..|fs|] == fs;
    r := Some(Mlink(m.identity, m.tags, files, numOfFiles));
  }

  /** What the descriptor holds: the kept files in reverse input order
      and counted exactly; each comes from an input file with a name and
      a resource list, counts its resources exactly, has a checksum
      count of zero and no chunk checksum. */
  lemma DescriptorShape(m: MlMetalink)
    requires m.files.Some?
    ensures var d := Descriptor(m);
      var kept := Collect(m.files.value, ConvertFile);
      d.numOfFiles == |d.files| == |kept| &&
      (forall k :: 0 <= k < |kept| ==> d.files[k] == kept[|kept| - 1 - k]) &&
      forall x :: x in d.files ==>
        (exists i :: 0 <= i < |m.files.value| && m.files.value[i].name.Some? &&
                     m.files.value[i].resources.Some? && ConvertFile(m.files.value[i]) == Some(x)) &&
        x.numOfRes == |x.resources| && x.numOfChecksums == 0 && x.chunkChecksum.None?
  {
    var fs := m.files.value;
    var kept := Collect(fs, ConvertFile);
    ReverseLength(kept);
    forall k | 0 <= k < |kept| ensures Reverse(kept)[k] == kept[|kept| - 1 - k] {
      ReverseAt(kept, k);
    }
    forall x | x in Reverse(kept)
      ensures (exists i :: 0 <= i < |fs| && fs[i].name.Some? && fs[i].resources.Some? && ConvertFile(fs[i]) == Some(x))
      ensures x.numOfRes == |x.resources|
    {
      var k :| 0 <= k < |kept| && Reverse(kept)[k] == x;
      ReverseAt(kept, k);
      KeptFileShape(fs, x);
    }
  }

  /** A kept file comes from a named input file with a resource list and
      counts its resources exactly. */
  lemma KeptFileShape(fs: seq<MlFile>, x: File)
    requires x in Collect(fs, ConvertFile)
    ensures exists i :: 0 <= i < |fs| && fs[i].name.Some? && fs[i].resources.Some? && ConvertFile(fs[i]) == Some(x)
    ensures x.numOfRes == |x.resources|
  {
    CollectMembers(fs, ConvertFile, x);
    var i :| 0 <= i < |fs| && ConvertFile(fs[i]) == Some(x);
    ReverseLength(Collect(fs[i].resources.value, ConvertResource));
  }

  /** A file whose resources all lack a URL is still kept, with no
      resources and a resource count of zero. */
  lemma FileWithoutUrls(f: MlFile)
    requires f.name.Some? && f.resources.Some?
    requires forall i :: 0 <= i < |f.resources.value| ==> f.resources.value[i].url.None?
    ensures ConvertFile(f).Some?
    ensures ConvertFile(f).value.resources == [] && ConvertFile(f).value.numOfRes == 0
  {
    CollectNone(f.resources.value, ConvertResource);
  }

  /** A resource with a URL but no type is kept with no type, so the
      election passes can meet a resource whose type is null. */
  lemma UntypedResourceKept(f: MlFile, r: MlResource)
    requires f.name.Some? && f.resources == Some([r])
    requires r.url.Some? && r.rtype.None?
    ensures ConvertFile(f).Some?
    ensures |ConvertFile(f).value.resources| == 1 && ConvertFile(f).value.resources[0].rtype.None?
  {
    assert [r][1..] == [];
    var x := ConvertResource(r).value;
    assert Collect([r], ConvertResource) == [x];
    assert Reverse([x]) == [x];
  }

  /** A file whose checksum records all lack a type or a hash is kept
      with an empty checksum list. */
  lemma FileWithoutChecksums(f: MlFile)
    requires f.name.Some? && f.resources.Some?
    requires forall i :: 0 <= i < |f.checksums| ==> f.checksums[i].ctype.None? || f.checksums[i].hash.None?
    ensures ConvertFile(f).Some? && ConvertFile(f).value.checksums == []
  {
    CollectNone(f.checksums, ConvertChecksum);
  }

  // ---------------------------------------------------------------
  // elect_resources and elect_checksums
  // ---------------------------------------------------------------

  /** The outcome of a pass over one file's list: the list it leaves;
      a read through a null pointer (an empty list's head, or a null
      type handed to strcmp); a read of the node it had just freed; or a
      list whose head node was freed while still linked as the head. */
  datatype Walk<T> = Walked(list: seq<T>) | NullRead | ReadFreed(node: T) | FreedHead(list: seq<T>)

  /** The interior walk of both election loops as written. `prev` starts
      at the head, so an empty list is dereferenced at once, and `res`
      at its successor. The test reads a field that `defined` says is
      not null; a node failing `keep` is unlinked and freed, but `res`
      is left on it, so the next test reads the freed node. */
  method UnlinkPassAsWritten<T>(l: seq<T>, defined: T -> bool, keep: T -> bool) returns (w: Walk<T>)
    ensures l == [] ==> w == NullRead
    ensures l != [] && (forall i :: 1 <= i < |l| ==> defined(l[i]) && keep(l[i])) ==> w == Walked(l)
    ensures (exists i :: 1 <= i < |l| && !(defined(l[i]) && keep(l[i]))) ==>
      exists i :: 1 <= i < |l| && !(defined(l[i]) && keep(l[i])) &&
        (forall j :: 1 <= j < i ==> defined(l[j]) && keep(l[j])) &&
        w == (if defined(l[i]) then ReadFreed(l[i]) else NullRead)
  {
    if l == [] {
      return NullRead;
    }
    var list := l;
    var prev := 0;
    var res: Option<T> := if |list| > 1 then Some(list[1]) else None;
    var resFreed := false;
    while res.Some?
      invariant 0 <= prev < |l| && forall j :: 1 <= j <= prev ==> defined(l[j]) && keep(l[j])
      invariant !resFreed ==> list == l && res == (if prev + 1 < |l| then Some(l[prev + 1]) else None)
      invariant resFreed ==> prev + 1 < |l| && res == Some(l[prev + 1]) && defined(l[prev + 1]) && !keep(l[prev + 1])
      decreases |l| - prev + (if resFreed then 0 else 1)
    {
      if resFreed {
        return ReadFreed(res.value);
      }
      if !defined(res.value) {
        return NullRead;
      }
      if !keep(res.value) {
        list := list[..prev + 1] + list[prev + 2..];
        resFreed := true;
      } else {
        prev := prev + 1;
        res := if prev + 1 < |list| then Some(list[prev + 1]) else None;
      }
    }
    return Walked(list);
  }

  /** The interior walk with the cursor moved to the new successor after
      each unlink: the head stays, and of the other nodes exactly those
      passing `keep` remain, in order. */
  method UnlinkPass<T>(l: seq<T>, keep: T -> bool) returns (list: seq<T>)
    requires |l| >= 1
    ensures list == [l[0]] + Filter(l[1..], keep)
  {
    list := l;
    var prev := 0;
    ghost var i := 1;
    var res: Option<T> := if |list| > 1 then Some(list[1]) else None;
    while res.Some?
      invariant 1 <= i <= |l| && prev + 1 == 1 + |Filter(l[1..i], keep)|
      invariant list == [l[0]] + Filter(l[1..i], keep) + l[i..]
      invariant res == (if i < |l| then Some(l[i]) else None)
      decreases |l| - i
    {
      UnlinkStep(l, i, keep, list, prev);
      if !keep(res.value) {
        list := list[..prev + 1] + list[prev + 2..];
      } else {
        prev := prev + 1;
      }
      i := i + 1;
      res := if prev + 1 < |list| then Some(list[prev + 1]) else None;
    }
    assert l[1..i] == l[1..];
  }

  /** The bookkeeping of one step of UnlinkPass. */
  lemma UnlinkStep<T>(l: seq<T>, i: nat, keep: T -> bool, list: seq<T>, prev: nat)
    requires 1 <= i < |l| && prev + 1 == 1 + |Filter(l[1..i], keep)|
    requires list == [l[0]] + Filter(l[1..i], keep) + l[i..]
    ensures prev + 2 <= |list| && list[prev + 1] == l[i]
    ensures !keep(l[i]) ==> list[..prev + 1] + list[prev + 2..] == [l[0]] + Filter(l[1..i + 1], keep) + l[i + 1..]
    ensures keep(l[i]) ==> list == [l[0]] + Filter(l[1..i + 1], keep) + l[i + 1..]
    ensures prev + 1 + (if keep(l[i]) then 1 else 0) == 1 + |Filter(l[1..i + 1], keep)|
  {
    var head := [l[0]] + Filter(l[1..i], keep);
    var rest := l[i + 1..];
    assert l[1..i + 1] == l[1..i] + [l[i]];
    FilterSnoc(l[1..i], l[i], keep);
    assert l[i..] == [l[i]] + rest;
    Splice(head, l[i], rest, list);
  }

  /** Removing the element just after `head`. */
  lemma Splice<T>(head: seq<T>, x: T, rest: seq<T>, list: seq<T>)
    requires list == head + ([x] + rest)
    ensures |list| >= |head| + 1 && list[|head|] == x
    ensures list[..|head|] + list[|head| + 1..] == head + rest
  {
    assert list[..|head|] == head;
    assert list[|head| + 1..] == rest;
  }

  /** The field strcmp reads in elect_resources is not null. */
  predicate HasType(r: Resource)
  {
    r.rtype.Some?
  }

  /** The unlink test of elect_resources as written:
      strcmp (type, "ftp") || strcmp (type, "http") is nonzero. A
      resource survives only when the test is zero. */
  predicate KeepResourceAsWritten(r: Resource)
  {
    r.rtype.Some? && !(r.rtype.value != "ftp" || r.rtype.value != "http")
  }

  /** No type is both "ftp" and "http", so the test unlinks every
      resource. */
  lemma NoResourceSurvives(r: Resource)
    ensures !KeepResourceAsWritten(r)
  {
  }

  /** The evidently intended test: keep the FTP and HTTP resources. */
  predicate KeepWebResource(r: Resource)
  {
    r.rtype.Some? && (r.rtype.value == "ftp" || r.rtype.value == "http")
  }

  /** elect_resources on one file, as written: an empty list is
      dereferenced; otherwise the first resource tested (the second,
      else the head) must have a type. A lone resource is then unlinked,
      leaving the list empty; with two or more, the second is freed and
      then read again. */
  method ElectFileResources(rs: seq<Resource>) returns (w: Walk<Resource>)
    ensures rs == [] ==> w == NullRead
    ensures |rs| == 1 ==> w == (if rs[0].rtype.None? then NullRead else Walked([]))
    ensures |rs| >= 2 ==> w == (if rs[1].rtype.None? then NullRead else ReadFreed(rs[1]))
  {
    w := UnlinkPassAsWritten(rs, HasType, KeepResourceAsWritten);
    if !w.Walked? {
      return;
    }
    var list := w.list;
    if !HasType(list[0]) {
      return NullRead;
    }
    if !KeepResourceAsWritten(list[0]) {
      list := list[1..];
    }
    w := Walked(list);
  }

  /** elect_resources on one file with the cursor advanced after each
      unlink, the intended test, and the head unlinked only when other
      resources remain: the FTP and HTTP resources, in order, or the
      first resource alone when none qualifies, so a file never loses
      its last location. */
  method ElectFileResourcesFixed(rs: seq<Resource>) returns (list: seq<Resource>)
    ensures rs != [] ==> list != []
    ensures Filter(rs, KeepWebResource) != [] ==> list == Filter(rs, KeepWebResource)
    ensures rs != [] && Filter(rs, KeepWebResource) == [] ==> list == [rs[0]]
    ensures forall r :: r in list ==> r in rs
    ensures Filter(rs, KeepWebResource) != [] ==> forall r :: r in list <==> r in rs && KeepWebResource(r)
  {
    if rs == [] {
      return [];
    }
    list := UnlinkPass(rs, KeepWebResource);
    if !KeepWebResource(list[0]) && |list| > 1 {
      list := list[1..];
    }
    assert rs == [rs[0]] + rs[1..];
    forall r ensures r in Filter(rs, KeepWebResource) <==> r in rs && KeepWebResource(r) {
      FilterMembers(rs, KeepWebResource, r);
    }
    forall r ensures r in Filter(rs[1..], KeepWebResource) ==> r in rs {
      FilterMembers(rs[1..], KeepWebResource, r);
    }
  }

  /** elect_resources over every file, as written: defined only while
      every file has exactly one resource, with a type; each such file
      loses that resource while its resource count stays as it was. */
  method ElectResources(files: seq<File>) returns (out: Option<seq<File>>)
    ensures out.None? <==>
      exists k :: 0 <= k < |files| && !(|files[k].resources| == 1 && files[k].resources[0].rtype.Some?)
    ensures out.Some? ==>
      |out.value| == |files| &&
      forall k :: 0 <= k < |files| ==> out.value[k] == files[k].(resources := [])
  {
    var done: seq<File> := [];
    var k := 0;
    while k < |files|
      invariant 0 <= k <= |files| && |done| == k
      invariant forall n :: 0 <= n < k ==>
        |files[n].resources| == 1 && files[n].resources[0].rtype.Some? && done[n] == files[n].(resources := [])
    {
      var w := ElectFileResources(files[k].resources);
      if !w.Walked? {
        return None;
      }
      done := done + [files[k].(resources := w.list)];
      k := k + 1;
    }
    return Some(done);
  }

  // ---------------------------------------------------------------
  // elect_checksums
  // ---------------------------------------------------------------

  const HASH_TYPES := 3

  /** supported_hashes, strongest first. */
  const SUPPORTED: seq<string> := ["sha256", "sha1", "md5"]

  /** The scan `for (i = 0; i < HASH_TYPES && strcmp (type,
      supported_hashes[i]); ++i)` from position `i`. */
  function SupportedFrom(t: string, i: nat): (k: nat)
    requires i <= HASH_TYPES
    ensures i <= k <= HASH_TYPES
    ensures k < HASH_TYPES ==> SUPPORTED[k] == t
    ensures forall j :: i <= j < k ==> SUPPORTED[j] != t
    decreases HASH_TYPES - i
  {
    if i < HASH_TYPES && SUPPORTED[i] != t then SupportedFrom(t, i + 1) else i
  }

  /** The position of `t` among the supported types, or HASH_TYPES. */
  function SupportedIndex(t: string): (k: nat)
    ensures k <= HASH_TYPES
    ensures k < HASH_TYPES <==> t in SUPPORTED
    ensures k < HASH_TYPES ==> SUPPORTED[k] == t
  {
    SupportedFrom(t, 0)
  }

  /** elect_checksums keeps a record as written when the scan runs off
      the table, that is when its type is not supported. */
  predicate KeepUnsupported(c: Checksum)
  {
    SupportedIndex(c.ctype) == HASH_TYPES
  }

  /** The evidently intended test: keep the supported types. */
  predicate KeepSupported(c: Checksum)
  {
    SupportedIndex(c.ctype) < HASH_TYPES
  }

  /** elect_checksums on one file, as written. An empty list is
      dereferenced. Undefined when a non-head record has a supported
      type (it is freed and read again). Otherwise no record was
      unlinked; if the head has a supported type, it is freed through
      the predecessor left over from the walk (the last node, which is
      relinked to the head's successor) while the file still points to
      it. Every kept record has a type, so strcmp never reads null. */
  method ElectFileChecksums(cs: seq<Checksum>) returns (w: Walk<Checksum>)
    ensures cs == [] <==> w == NullRead
    ensures w.ReadFreed? <==> exists i :: 1 <= i < |cs| && KeepSupported(cs[i])
    ensures cs != [] && !w.ReadFreed? && KeepSupported(cs[0]) ==> w == FreedHead(cs)
    ensures cs != [] && !w.ReadFreed? && !KeepSupported(cs[0]) ==> w == Walked(cs)
  {
    w := UnlinkPassAsWritten(cs, (c: Checksum) => true, KeepUnsupported);
    if !w.Walked? {
      return;
    }
    if !KeepUnsupported(cs[0]) {
      w := FreedHead(w.list);
    }
  }

  /** elect_checksums on one file with the cursor advanced, the intended
      test and the head unlinked from the file itself: exactly the
      records of supported types remain, in order. */
  method ElectFileChecksumsFixed(cs: seq<Checksum>) returns (list: seq<Checksum>)
    ensures list == Filter(cs, KeepSupported)
    ensures forall c :: c in list <==> c in cs && c.ctype in SUPPORTED
  {
    if cs == [] {
      return [];
    }
    list := UnlinkPass(cs, KeepSupported);
    if !KeepSupported(list[0]) {
      list := list[1..];
    }
    assert cs == [cs[0]] + cs[1..];
    forall c ensures c in Filter(cs, KeepSupported) <==> c in cs && KeepSupported(c) {
      FilterMembers(cs, KeepSupported, c);
    }
  }

  /** elect_checksums over every file, as written: undefined as soon as
      a file has no checksum record or a supported type past its head;
      otherwise no list changes, and the files whose head record has a
      supported type are left with a freed head. */
  method ElectChecksums(files: seq<File>) returns (freedHeads: Option<set<nat>>)
    ensures freedHeads.None? <==>
      exists k :: 0 <= k < |files| && (files[k].checksums == [] ||
        exists i :: 1 <= i < |files[k].checksums| && KeepSupported(files[k].checksums[i]))
    ensures freedHeads.Some? ==>
      forall k :: k in freedHeads.value <==>
        0 <= k < |files| && files[k].checksums != [] && KeepSupported(files[k].checksums[0])
  {
    var heads: set<nat> := {};
    var k := 0;
    while k < |files|
      invariant 0 <= k <= |files|
      invariant forall n :: 0 <= n < k ==>
        files[n].checksums != [] &&
        forall i :: 1 <= i < |files[n].checksums| ==> !KeepSupported(files[n].checksums[i])
      invariant forall n :: n in heads <==> 0 <= n < k && KeepSupported(files[n].checksums[0])
    {
      var w := ElectFileChecksums(files[k].checksums);
      if w.NullRead? || w.ReadFreed? {
        return None;
      }
      if w.FreedHead? {
        heads := heads + {k};
      }
      k := k + 1;
    }
    return Some(heads);
  }
}
