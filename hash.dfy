/** File verification against a metalink descriptor (verify_file_hash
    of metalink.c): choose the strongest checksum type the descriptor
    offers, render the file's digest in lower-case hexadecimal and
    compare it with the descriptor's digest after folding its case.

    Opening and hashing the file are not modelled: whether fopen and
    the digest function succeeded are inputs, and so are the digest
    bytes they leave in `hash_raw`. */
module MetalinkHash {
  import opened Common
  import opened Metalink

  const MAX_DIGEST_LENGTH := 32

  /** digest_sizes: SHA-256, SHA-1 and MD5 digests, in bytes. */
  const DIGEST_SIZES: seq<nat> := [32, 20, 16]

  // ---------------------------------------------------------------
  // Hexadecimal rendering ("%02x")
  // ---------------------------------------------------------------

  /** The lower-case hexadecimal digit of `n`. */
  function HexDigit(n: nat): (c: char)
    requires n < 16
    ensures IsHexDigit(c)
  {
    if n < 10 then ('0' as int + n) as char else ('a' as int + n - 10) as char
  }

  predicate IsHexDigit(c: char)
  {
    '0' <= c <= '9' || 'a' <= c <= 'f'
  }

  /** The value of a hexadecimal digit. */
  function HexValue(c: char): (n: nat)
    requires IsHexDigit(c)
    ensures n < 16
  {
    if c <= '9' then c as int - '0' as int else c as int - 'a' as int + 10
  }

  /** Character `k` of the rendering of `d`: the high nibble of byte
      k/2 at even positions, the low one at odd positions. */
  function HexAt(d: seq<byte>, k: nat): char
    requires k < 2 * |d|
  {
    if k % 2 == 0 then HexDigit(d[k / 2] as int / 16) else HexDigit(d[k / 2] as int % 16)
  }

  /** Each byte as two lower-case hexadecimal digits. */
  function Hex(d: seq<byte>): (h: string)
    ensures |h| == 2 * |d|
    ensures forall k :: 0 <= k < |h| ==> IsHexDigit(h[k])
  {
    seq(2 * |d|, k requires 0 <= k < 2 * |d| => HexAt(d, k))
  }

  /** Reading the digits back, two per byte. */
  function Unhex(h: string): (d: seq<byte>)
    requires |h| % 2 == 0 && forall k :: 0 <= k < |h| ==> IsHexDigit(h[k])
    ensures |d| == |h| / 2
  {
    seq(|h| / 2, j requires 0 <= j < |h| / 2 => (HexValue(h[2 * j]) * 16 + HexValue(h[2 * j + 1])) as byte)
  }

  /** The rendering loses nothing: reading it back gives the digest. */
  lemma HexRoundTrip(d: seq<byte>)
    ensures Unhex(Hex(d)) == d
  {
    var h := Hex(d);
    var back := Unhex(h);
    forall j | 0 <= j < |d| ensures back[j] == d[j] {
      HexPair(d, j);
      NibbleRoundTrip(d[j] as int);
      assert back[j] == (HexValue(h[2 * j]) * 16 + HexValue(h[2 * j + 1])) as byte;
    }
  }

  /** Byte `j` is rendered at positions 2j and 2j+1. */
  lemma HexPair(d: seq<byte>, j: nat)
    requires j < |d|
    ensures Hex(d)[2 * j] == HexDigit(d[j] as int / 16)
    ensures Hex(d)[2 * j + 1] == HexDigit(d[j] as int % 16)
  {
    assert (2 * j) / 2 == j && (2 * j) % 2 == 0;
    assert (2 * j + 1) / 2 == j && (2 * j + 1) % 2 == 1;
  }

  /** One byte through its two digits and back. */
  lemma NibbleRoundTrip(b: int)
    requires 0 <= b < 256
    ensures HexValue(HexDigit(b / 16)) * 16 + HexValue(HexDigit(b % 16)) == b
  {
  }

  /** The rendering is already lower case, so folding it changes
      nothing. */
  lemma HexIsLower(d: seq<byte>)
    ensures Lower(Hex(d)) == Hex(d)
  {
  }

  /** The `%02x` loop of verify_file_hash: each sprintf writes two
      digits and a terminating zero after them. */
  method RenderHex(raw: seq<byte>, size: nat) returns (fileHash: array<char>)
    requires size <= |raw| && size <= MAX_DIGEST_LENGTH
    ensures fresh(fileHash) && fileHash.Length == 2 * MAX_DIGEST_LENGTH + 1
    ensures fileHash[..2 * size] == Hex(raw[..size]) && fileHash[2 * size] == '\0'
  {
    fileHash := new char[2 * MAX_DIGEST_LENGTH + 1](_ => '\0');
    var j := 0;
    while j < size
      invariant 0 <= j <= size
      invariant forall k :: 0 <= k < 2 * j ==> fileHash[k] == HexAt(raw, k)
      invariant fileHash[2 * j] == '\0'
    {
      assert (2 * j) / 2 == j && (2 * j) % 2 == 0;
      assert (2 * j + 1) / 2 == j && (2 * j + 1) % 2 == 1;
      fileHash[2 * j] := HexDigit(raw[j] as int / 16);
      fileHash[2 * j + 1] := HexDigit(raw[j] as int % 16);
      fileHash[2 * j + 2] := '\0';
      j := j + 1;
    }
    assert forall k :: 0 <= k < 2 * size ==> HexAt(raw[..size], k) == HexAt(raw, k);
  }

  // ---------------------------------------------------------------
  // lower_hex_case
  // ---------------------------------------------------------------

  /** lower_hex_case: fold 'A'..'Z' to lower case in the first `length`
      characters of `hash`; the rest is untouched. */
  method LowerHexCase(hash: array<char>, length: int)
    requires 0 <= length <= hash.Length
    modifies hash
    ensures hash[..length] == Lower(old(hash[..length]))
    ensures hash[length..] == old(hash[length..])
  {
    var i := 0;
    while i < length
      invariant 0 <= i <= length
      invariant forall k :: 0 <= k < i ==> hash[k] == LowerChar(old(hash[k]))
      invariant forall k :: i <= k < hash.Length ==> hash[k] == old(hash[k])
    {
      if 'A' <= hash[i] <= 'Z' {
        hash[i] := (hash[i] as int + 32) as char;
      }
      i := i + 1;
    }
  }

  // ---------------------------------------------------------------
  // The checksum records of one file, by supported type
  // ---------------------------------------------------------------

  /** How many records have the supported type `j`. */
  function TypeCount(cs: seq<Checksum>, j: nat): nat
    requires j < HASH_TYPES
  {
    if cs == [] then 0
    else TypeCount(cs[..|cs| - 1], j) + (if cs[|cs| - 1].ctype == SUPPORTED[j] then 1 else 0)
  }

  /** The hash of the last record of supported type `j`, if any. */
  function Slot(cs: seq<Checksum>, j: nat): Option<string>
    requires j < HASH_TYPES
  {
    if cs == [] then None
    else if cs[|cs| - 1].ctype == SUPPORTED[j] then Some(cs[|cs| - 1].hash)
    else Slot(cs[..|cs| - 1], j)
  }

  /** Two records share a supported type. */
  predicate HasDuplicate(cs: seq<Checksum>)
  {
    exists j :: 0 <= j < HASH_TYPES && TypeCount(cs, j) >= 2
  }

  lemma {:induction false} SlotPresent(cs: seq<Checksum>, j: nat)
    requires j < HASH_TYPES
    ensures Slot(cs, j).Some? <==> TypeCount(cs, j) >= 1
    ensures Slot(cs, j).Some? <==> exists k :: 0 <= k < |cs| && cs[k].ctype == SUPPORTED[j]
  {
    if cs != [] {
      var init := cs[..|cs| - 1];
      SlotPresent(init, j);
      if exists k :: 0 <= k < |init| && init[k].ctype == SUPPORTED[j] {
        var k :| 0 <= k < |init| && init[k].ctype == SUPPORTED[j];
        assert cs[k] == init[k];
      }
      if exists k :: 0 <= k < |cs| && cs[k].ctype == SUPPORTED[j] {
        var k :| 0 <= k < |cs| && cs[k].ctype == SUPPORTED[j];
        if k < |init| {
          assert init[k] == cs[k];
        }
      }
    }
  }

  lemma {:induction false} TypeCountPrefix(cs: seq<Checksum>, n: nat, j: nat)
    requires n <= |cs| && j < HASH_TYPES
    ensures TypeCount(cs[..n], j) <= TypeCount(cs, j)
    decreases |cs|
  {
    if n < |cs| {
      var init := cs[..|cs| - 1];
      assert cs[..n] == init[..n];
      TypeCountPrefix(init, n, j);
    } else {
      assert cs[..n] == cs;
    }
  }

  /** Without a duplicate, the slot of a type holds the hash of the one
      record of that type. */
  lemma {:induction false} SlotUnique(cs: seq<Checksum>, j: nat, k: nat)
    requires j < HASH_TYPES && k < |cs| && TypeCount(cs, j) <= 1 && cs[k].ctype == SUPPORTED[j]
    ensures Slot(cs, j) == Some(cs[k].hash)
  {
    if k < |cs| - 1 {
      var init := cs[..|cs| - 1];
      assert init[k] == cs[k];
      SlotPresent(init, j);
      SlotUnique(init, j, k);
    }
  }

  /** The strongest supported type with a record, searching from `i`. */
  function ElectedFrom(cs: seq<Checksum>, i: nat): (r: Option<nat>)
    requires i <= HASH_TYPES
    ensures r.Some? ==>
      i <= r.value < HASH_TYPES && Slot(cs, r.value).Some? &&
      forall j :: i <= j < r.value ==> Slot(cs, j).None?
    ensures r.None? ==> forall j :: i <= j < HASH_TYPES ==> Slot(cs, j).None?
    decreases HASH_TYPES - i
  {
    if i == HASH_TYPES then None
    else if Slot(cs, i).Some? then Some(i)
    else ElectedFrom(cs, i + 1)
  }

  /** The elected type: the first of sha256, sha1, md5 with a record. */
  function Elected(cs: seq<Checksum>): (r: Option<nat>)
    ensures r.Some? ==>
      r.value < HASH_TYPES && Slot(cs, r.value).Some? &&
      forall j :: 0 <= j < r.value ==> Slot(cs, j).None?
    ensures r.None? ==> forall j :: 0 <= j < HASH_TYPES ==> Slot(cs, j).None?
  {
    ElectedFrom(cs, 0)
  }

  /** sha256 beats sha1, which beats md5; without any of them nothing is
      elected. */
  lemma ElectedStrongest(cs: seq<Checksum>)
    ensures (exists k :: 0 <= k < |cs| && cs[k].ctype == "sha256") ==> Elected(cs) == Some(0)
    ensures ((forall k :: 0 <= k < |cs| ==> cs[k].ctype != "sha256") &&
             (exists k :: 0 <= k < |cs| && cs[k].ctype == "sha1")) ==> Elected(cs) == Some(1)
    ensures ((forall k :: 0 <= k < |cs| ==> cs[k].ctype != "sha256" && cs[k].ctype != "sha1") &&
             (exists k :: 0 <= k < |cs| && cs[k].ctype == "md5")) ==> Elected(cs) == Some(2)
    ensures (forall k :: 0 <= k < |cs| ==> cs[k].ctype !in SUPPORTED) ==> Elected(cs).None?
  {
    SlotPresent(cs, 0);
    SlotPresent(cs, 1);
    SlotPresent(cs, 2);
  }

  // ---------------------------------------------------------------
  // verify_file_hash
  // ---------------------------------------------------------------

  /** The fill loop of verify_file_hash: metalink_hashes[j] receives the
      hash of the record of type j; a second record of any supported
      type stops the loop. */
  method CollectHashes(cs: seq<Checksum>) returns (ok: bool, slots: array<Option<string>>)
    ensures fresh(slots) && slots.Length == HASH_TYPES
    ensures ok <==> !HasDuplicate(cs)
    ensures ok ==> forall j :: 0 <= j < HASH_TYPES ==> slots[j] == Slot(cs, j)
  {
    slots := new Option<string>[HASH_TYPES](_ => None);
    var i := 0;
    while i < |cs|
      invariant 0 <= i <= |cs|
      invariant SlotsHold(slots, cs[..i])
    {
      var filled := FillRecord(slots, cs[..i], cs[i]);
      assert cs[..i] + [cs[i]] == cs[..i + 1];
      if !filled {
        var n :| 0 <= n < HASH_TYPES && TypeCount(cs[..i + 1], n) >= 2;
        TypeCountPrefix(cs, i + 1, n);
        return false, slots;
      }
      i := i + 1;
    }
    assert cs[..|cs|] == cs;
    return true, slots;
  }

  /** `slots` holds the hash of each supported type among `done`, and no
      type occurs twice there. */
  ghost predicate SlotsHold(slots: array<Option<string>>, done: seq<Checksum>)
    reads slots
  {
    slots.Length == HASH_TYPES &&
    forall n :: 0 <= n < HASH_TYPES ==> slots[n] == Slot(done, n) && TypeCount(done, n) <= 1
  }

  /** The inner loop of the fill, for one record `c` after the records
      `done`: the slot of its type receives its hash, and a slot already
      filled for that type stops the fill. */
  method FillRecord(slots: array<Option<string>>, ghost done: seq<Checksum>, c: Checksum) returns (ok: bool)
    requires SlotsHold(slots, done)
    modifies slots
    ensures ok ==> SlotsHold(slots, done + [c])
    ensures !ok ==> exists n :: 0 <= n < HASH_TYPES && TypeCount(done + [c], n) >= 2
  {
    ghost var all := done + [c];
    assert all[..|all| - 1] == done;
    var j := 0;
    while j < HASH_TYPES
      invariant 0 <= j <= HASH_TYPES
      invariant forall n :: 0 <= n < j ==> slots[n] == Slot(all, n) && TypeCount(all, n) <= 1
      invariant forall n :: j <= n < HASH_TYPES ==> slots[n] == Slot(done, n) && TypeCount(done, n) <= 1
    {
      SlotPresent(done, j);
      if c.ctype == SUPPORTED[j] {
        if slots[j].Some? {
          assert TypeCount(all, j) == TypeCount(done, j) + 1;
          assert 0 <= j < HASH_TYPES && TypeCount(done + [c], j) >= 2;
          return false;
        }
        slots[j] := Some(c.hash);
      }
      j := j + 1;
    }
    return true;
  }

  /** The verdicts of verify_file_hash, and undefined behaviour. */
  datatype Verdict = Same | Different | Failed | Undefined

  /** The value verify_file_hash returns for a defined verdict. */
  function ResultCode(v: Verdict): (code: int)
    requires !v.Undefined?
    ensures code == 0 <==> v == Same
    ensures code == -1 <==> v == Different
    ensures code == 1 <==> v == Failed
  {
    match v
    case Same => 0
    case Different => -1
    case Failed => 1
  }

  /** `for (i = 0; !metalink_hashes[i]; ++i);` as written: when no slot
      is filled the loop reads metalink_hashes[HASH_TYPES], past the
      array (None here). */
  method ScanSlotsAsWritten(slots: array<Option<string>>) returns (t: Option<nat>)
    requires slots.Length == HASH_TYPES
    ensures t.None? <==> forall j :: 0 <= j < HASH_TYPES ==> slots[j].None?
    ensures t.Some? ==>
      t.value < HASH_TYPES && slots[t.value].Some? &&
      forall j :: 0 <= j < t.value ==> slots[j].None?
  {
    var i := 0;
    while true
      invariant 0 <= i <= HASH_TYPES && forall j :: 0 <= j < i ==> slots[j].None?
      decreases HASH_TYPES - i
    {
      if i == HASH_TYPES {
        return None;
      }
      if slots[i].Some? {
        return Some(i);
      }
      i := i + 1;
    }
  }

  /** The scan with the bound it evidently needs: HASH_TYPES when no
      slot is filled. */
  method ScanSlots(slots: array<Option<string>>) returns (i: nat)
    requires slots.Length == HASH_TYPES
    ensures i <= HASH_TYPES && forall j :: 0 <= j < i ==> slots[j].None?
    ensures i < HASH_TYPES ==> slots[i].Some?
  {
    i := 0;
    while i < HASH_TYPES && slots[i].None?
      invariant 0 <= i <= HASH_TYPES && forall j :: 0 <= j < i ==> slots[j].None?
    {
      i := i + 1;
    }
  }

  /** The descriptor's digest `h` folded by lower_hex_case over its first
      `n` characters; at `n == |h| + 1` the terminating NUL is reached,
      which folding leaves alone. */
  function FoldedDigest(h: string, n: nat): (f: string)
    requires n <= |h| + 1
    ensures |f| == |h|
    ensures forall k :: 0 <= k < |h| ==> f[k] == (if k < n then LowerChar(h[k]) else h[k])
  {
    if n <= |h| then Lower(h[..n]) + h[n..] else Lower(h)
  }

  /** The records `cs` after the digest of every record of type `ty` is
      replaced by `x`: how the fold through metalink_hashes[req_type]
      shows in the descriptor. */
  function WithHash(cs: seq<Checksum>, ty: string, x: string): (r: seq<Checksum>)
    ensures |r| == |cs|
    ensures forall k :: 0 <= k < |cs| ==> r[k] == (if cs[k].ctype == ty then cs[k].(hash := x) else cs[k])
  {
    seq(|cs|, k requires 0 <= k < |cs| => if cs[k].ctype == ty then cs[k].(hash := x) else cs[k])
  }

  /** The descriptor's digest as a C string: the buffer the fold runs on
      before it is written back into the record. */
  method CopyDigest(h: string) returns (buf: array<char>)
    ensures fresh(buf) && buf.Length == |h| + 1
    ensures buf[..|h|] == h && buf[|h|] == '\0'
  {
    buf := new char[|h| + 1](k requires 0 <= k <= |h| => if k < |h| then h[k] else '\0');
  }

  /** verify_file_hash as written. 1 (Failed) without records, with two
      records of one supported type, or when the file cannot be opened
      or hashed; undefined when no supported type is present (the scan
      runs past its array) or when the descriptor's digest is too short
      for the folding loop; otherwise 0 (Same) exactly when the
      case-folded digest equals the lower-case rendering of the file's
      digest, and -1 (Different) when it does not. `after` is the
      descriptor's record list afterwards: the digest of the elected
      record is folded in place on both of those paths, and nothing
      changes on the failing ones. */
  method VerifyFileHash(checksums: seq<Checksum>, canOpen: bool, canHash: bool, hashRaw: seq<byte>)
    returns (v: Verdict, after: seq<Checksum>)
    requires |hashRaw| == MAX_DIGEST_LENGTH
    ensures checksums == [] ==> v == Failed
    ensures checksums != [] && HasDuplicate(checksums) ==> v == Failed
    ensures checksums != [] && !HasDuplicate(checksums) && Elected(checksums).None? ==> v == Undefined
    ensures checksums != [] && !HasDuplicate(checksums) && Elected(checksums).Some? ==>
      var t := Elected(checksums).value;
      var h := Slot(checksums, t).value;
      var size := DIGEST_SIZES[t];
      v == if !canOpen || !canHash then Failed
           else if 2 * size > |h| + 1 then Undefined
           else if Lower(h) == Hex(hashRaw[..size]) then Same
           else Different
    ensures v == Failed ==> after == checksums
    ensures checksums != [] && !HasDuplicate(checksums) && Elected(checksums).Some? && (v == Same || v == Different) ==>
      var t := Elected(checksums).value;
      var n := 2 * DIGEST_SIZES[t];
      |after| == |checksums| &&
      forall k :: 0 <= k < |checksums| ==>
        after[k] == if checksums[k].ctype == SUPPORTED[t] && n <= |checksums[k].hash| + 1
                    then checksums[k].(hash := FoldedDigest(checksums[k].hash, n))
                    else checksums[k]
  {
    after := checksums;
    if checksums == [] {
      return Failed, after;
    }
    var ok, slots := CollectHashes(checksums);
    if !ok {
      return Failed, after;
    }
    var t := ScanSlotsAsWritten(slots);
    if t.None? {
      return Undefined, after;
    }
    var reqType := t.value;
    assert Elected(checksums) == Some(reqType);
    if !canOpen || !canHash {
      return Failed, after;
    }
    var size := DIGEST_SIZES[reqType];
    var fileHash := RenderHex(hashRaw, size);
    var h := slots[reqType].value;
    var buf := CopyDigest(h);
    if 2 * size > buf.Length {
      // lower_hex_case would read past the descriptor's digest, and write
      // wherever a byte there is an upper-case letter
      return Undefined, after;
    }
    LowerHexCase(buf, 2 * size);
    var folded := buf[..|h|];
    assert folded == FoldedDigest(h, 2 * size);
    after := WithHash(checksums, SUPPORTED[reqType], folded);
    forall k | 0 <= k < |checksums| && checksums[k].ctype == SUPPORTED[reqType]
      ensures checksums[k].hash == h
    {
      assert !HasDuplicate(checksums);
      SlotUnique(checksums, reqType, k);
    }
    v := if folded == fileHash[..2 * size] then Same else Different;
    FoldedPrefix(h, 2 * size, folded, Hex(hashRaw[..size]));
  }

  /** Folding only the first `n` characters of `h` yields the rendering
      `x` (of length `n`) exactly when folding all of `h` does. */
  lemma FoldedPrefix(h: string, n: nat, folded: string, x: string)
    requires n <= |h| + 1 && |x| == n
    requires folded == (if n <= |h| then Lower(h[..n]) + h[n..] else Lower(h))
    ensures folded == x <==> Lower(h) == x
  {
    if n <= |h| && folded == x {
      assert |h| == n;
      assert h[..n] == h;
    }
  }

  /** verify_file_hash with the scan bounded and the whole digest folded:
      1 (Failed) in every error case, including the absence of a
      supported type; otherwise 0 (Same) exactly when the case-folded
      digest equals the rendering of the file's digest. */
  method VerifyFileHashFixed(checksums: seq<Checksum>, canOpen: bool, canHash: bool, hashRaw: seq<byte>)
    returns (v: Verdict, after: seq<Checksum>)
    requires |hashRaw| == MAX_DIGEST_LENGTH
    ensures v != Undefined
    ensures v == Failed <==>
      checksums == [] || HasDuplicate(checksums) || Elected(checksums).None? || !canOpen || !canHash
    ensures v != Failed ==>
      var t := Elected(checksums).value;
      (v == Same <==> Lower(Slot(checksums, t).value) == Hex(hashRaw[..DIGEST_SIZES[t]]))
    ensures v == Failed ==> after == checksums
    ensures v != Failed ==>
      var t := Elected(checksums).value;
      |after| == |checksums| &&
      forall k :: 0 <= k < |checksums| ==>
        after[k] == if checksums[k].ctype == SUPPORTED[t]
                    then checksums[k].(hash := Lower(checksums[k].hash))
                    else checksums[k]
  {
    after := checksums;
    if checksums == [] {
      return Failed, after;
    }
    var ok, slots := CollectHashes(checksums);
    if !ok {
      return Failed, after;
    }
    var reqType := ScanSlots(slots);
    if reqType == HASH_TYPES {
      return Failed, after;
    }
    assert Elected(checksums) == Some(reqType);
    if !canOpen || !canHash {
      return Failed, after;
    }
    var size := DIGEST_SIZES[reqType];
    var fileHash := RenderHex(hashRaw, size);
    var h := slots[reqType].value;
    var buf := CopyDigest(h);
    LowerHexCase(buf, |h|);
    after := WithHash(checksums, SUPPORTED[reqType], buf[..|h|]);
    forall k | 0 <= k < |checksums| && checksums[k].ctype == SUPPORTED[reqType]
      ensures checksums[k].hash == h
    {
      assert !HasDuplicate(checksums);
      SlotUnique(checksums, reqType, k);
    }
    v := if buf[..|h|] == fileHash[..2 * size] then Same else Different;
  }
}
