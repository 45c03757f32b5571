/** String-building helpers of utils.c: a lowercased copy, copying a
    delimited range, splitting at commas, concatenation, merging string
    vectors, and quoting HTML's special characters. A C string is the
    sequence of its characters without the terminating zero; a
    NULL-terminated vector of strings is a sequence of strings. */
module Strings {
  import opened Common

  // ---------------------------------------------------------------
  // xstrdup_lower
  // ---------------------------------------------------------------

  predicate IsUpper(c: char)
  {
    'A' <= c <= 'Z'
  }

  /** xstrdup_lower: copy `s`, then lowercase the copy in place. */
  method XstrdupLower(s: string) returns (copy: array<char>)
    ensures fresh(copy) && copy[..] == Lower(s)
  {
    copy := new char[|s|](i requires 0 <= i < |s| => s[i]);
    var p := 0;
    while p < copy.Length
      invariant 0 <= p <= copy.Length
      invariant forall i :: 0 <= i < p ==> copy[i] == LowerChar(s[i])
      invariant forall i :: p <= i < copy.Length ==> copy[i] == s[i]
    {
      copy[p] := LowerChar(copy[p]);
      p := p + 1;
    }
  }

  /** The lowercased string has no capital letter, keeps every other
      character, and equals the input exactly when the input had no
      capital letter. */
  lemma LowerFacts(s: string)
    ensures |Lower(s)| == |s|
    ensures forall i :: 0 <= i < |s| ==> !IsUpper(Lower(s)[i])
    ensures forall i :: 0 <= i < |s| && !IsUpper(s[i]) ==> Lower(s)[i] == s[i]
    ensures Lower(s) == s <==> forall i :: 0 <= i < |s| ==> !IsUpper(s[i])
  {
    if Lower(s) == s {
      forall i | 0 <= i < |s| ensures !IsUpper(s[i]) {
        assert Lower(s)[i] == s[i];
      }
    }
  }

  // ---------------------------------------------------------------
  // strdupdelim
  // ---------------------------------------------------------------

  /** strdupdelim: a fresh string holding the characters from `beg` up
      to, but not including, `end`. */
  function StrDupDelim(text: string, beg: nat, end: nat): (r: string)
    requires beg <= end <= |text|
    ensures |r| == end - beg
    ensures forall i :: 0 <= i < |r| ==> r[i] == text[beg + i]
  {
    text[beg..end]
  }

  // ---------------------------------------------------------------
  // sepstring
  // ---------------------------------------------------------------

  /** `s` with its leading whitespace removed. */
  function DropSpaces(s: string): (r: string)
    ensures |r| <= |s|
  {
    if s != [] && IsSpace(s[0]) then DropSpaces(s[1..]) else s
  }

  /** What DropSpaces removes is a run of whitespace at the front, and
      what remains does not start with whitespace. */
  lemma {:induction false} DropSpacesFacts(s: string)
    ensures DropSpaces(s) == s[|s| - |DropSpaces(s)|..]
    ensures DropSpaces(s) == [] || !IsSpace(DropSpaces(s)[0])
    ensures forall i :: 0 <= i < |s| - |DropSpaces(s)| ==> IsSpace(s[i])
  {
    if s != [] && IsSpace(s[0]) {
      DropSpacesFacts(s[1..]);
      assert forall i :: 1 <= i < |s| ==> s[1..][i - 1] == s[i];
    }
  }

  /** Whitespace holds no comma, so dropping it keeps the comma count. */
  lemma {:induction false} DropSpacesKeepsCommas(s: string)
    ensures Commas(DropSpaces(s)) == Commas(s)
  {
    if s != [] && IsSpace(s[0]) {
      DropSpacesKeepsCommas(s[1..]);
      assert s == [s[0]] + s[1..];
    }
  }

  /** The index of the first occurrence of `c`. */
  function IndexOf(s: string, c: char): (k: nat)
    requires c in s
    ensures k < |s| && s[k] == c && c !in s[..k]
  {
    if s[0] == c then 0
    else
      var k := IndexOf(s[1..], c) + 1;
      assert s[..k] == [s[0]] + s[1..][..k - 1];
      k
  }

  /** The elements sepstring produces from a non-empty string: the text
      up to the first comma, then the elements of what follows the comma
      once its leading whitespace is dropped. */
  function Fields(s: string): seq<string>
    decreases |s|
  {
    if ',' !in s then [s]
    else
      var k := IndexOf(s, ',');
      [s[..k]] + Fields(DropSpaces(s[k + 1..]))
  }

  lemma FieldsAtComma(u: string, k: nat)
    requires k < |u| && u[k] == ',' && ',' !in u[..k]
    ensures Fields(u) == [u[..k]] + Fields(DropSpaces(u[k + 1..]))
  {
    assert ',' in u;
    var j := IndexOf(u, ',');
    assert j == k;
  }

  /** sepstring: NULL for a NULL or empty string, otherwise the comma
      separated elements, each without the whitespace that followed the
      comma before it. */
  method SepString(s: Option<string>) returns (res: Option<seq<string>>)
    ensures s.None? || s.value == [] ==> res.None?
    ensures s.Some? && s.value != [] ==> res == Some(Fields(s.value))
  {
    if s.None? || s.value == [] {
      return None;
    }
    var t := s.value;
    var elems: seq<string> := [];
    var p, i := 0, 0;
    while i < |t|
      invariant 0 <= p <= i <= |t|
      invariant forall j :: p <= j < i ==> t[j] != ','
      invariant elems + Fields(t[p..]) == Fields(t)
    {
      if t[i] == ',' {
        elems, i := EndElement(t, p, i, elems);
        p := i;
      } else {
        i := i + 1;
      }
    }
    NoCommaSlice(t, p, i);
    FieldsWithoutComma(t[p..]);
    elems := elems + [StrDupDelim(t, p, i)];
    res := Some(elems);
  }

  /** At the comma at `i`: the element that started at `p` is copied,
      and the next one starts after the whitespace behind the comma. */
  method EndElement(t: string, p: nat, i: nat, elems: seq<string>) returns (elems': seq<string>, next: nat)
    requires p <= i < |t| && t[i] == ','
    requires forall j :: p <= j < i ==> t[j] != ','
    requires elems + Fields(t[p..]) == Fields(t)
    ensures i < next <= |t|
    ensures elems' + Fields(t[next..]) == Fields(t)
  {
    NoCommaSlice(t, p, i);
    var field := StrDupDelim(t, p, i);
    assert field == t[p..i];
    elems' := elems + [field];
    next := SkipSpaces(t, i + 1);
    CommaStep(t, p, i, next, elems);
  }

  lemma NoCommaSlice(t: string, p: nat, i: nat)
    requires p <= i <= |t| && forall j :: p <= j < i ==> t[j] != ','
    ensures ',' !in t[p..i] && (i == |t| ==> t[p..] == t[p..i])
  {
  }

  lemma FieldsWithoutComma(u: string)
    requires ',' !in u
    ensures Fields(u) == [u]
  {
  }

  /** The loop that steps over the whitespace after a comma. */
  method SkipSpaces(t: string, start: nat) returns (i: nat)
    requires start <= |t|
    ensures start <= i <= |t| && DropSpaces(t[start..]) == t[i..]
  {
    i := start;
    while i < |t| && IsSpace(t[i])
      invariant start <= i <= |t|
      invariant DropSpaces(t[start..]) == DropSpaces(t[i..])
    {
      SpaceStep(t, i);
      i := i + 1;
    }
  }

  /** Reaching the comma at `i` completes the element that started at
      `p`; what follows is split from the comma's right, once its
      whitespace is skipped. */
  lemma CommaStep(t: string, p: nat, i: nat, next: nat, elems: seq<string>)
    requires p <= i < |t| && t[i] == ',' && ',' !in t[p..i]
    requires next <= |t| && DropSpaces(t[i + 1..]) == t[next..]
    requires elems + Fields(t[p..]) == Fields(t)
    ensures (elems + [t[p..i]]) + Fields(t[next..]) == Fields(t)
  {
    FieldsFrom(t, p, i);
    assert (elems + [t[p..i]]) + Fields(t[next..]) == elems + ([t[p..i]] + Fields(t[next..]));
  }

  lemma FieldsFrom(t: string, p: nat, i: nat)
    requires p <= i < |t| && t[i] == ',' && ',' !in t[p..i]
    ensures Fields(t[p..]) == [t[p..i]] + Fields(DropSpaces(t[i + 1..]))
  {
    var u, k := t[p..], i - p;
    CommaInRest(t, p, i);
    FieldsAtComma(u, k);
    var head, rest := u[..k], DropSpaces(u[k + 1..]);
    assert head == t[p..i] && rest == DropSpaces(t[i + 1..]);
  }

  lemma CommaInRest(t: string, p: nat, i: nat)
    requires p <= i < |t| && t[i] == ',' && ',' !in t[p..i]
    ensures t[p..][..i - p] == t[p..i] && t[p..][i - p + 1..] == t[i + 1..]
    ensures i - p < |t[p..]| && t[p..][i - p] == ',' && ',' !in t[p..][..i - p]
  {
    assert t[p..][..i - p] == t[p..i];
  }

  lemma SpaceStep(t: string, i: nat)
    requires i < |t| && IsSpace(t[i])
    ensures DropSpaces(t[i..]) == DropSpaces(t[i + 1..])
  {
    assert t[i..][1..] == t[i + 1..];
  }

  /** Number of commas in `s`. */
  function Commas(s: string): nat
  {
    multiset(s)[',']
  }

  /** The first comma of `s`, at `k`, accounts for one comma; the rest
      are after it. */
  lemma CommaSplit(s: string, k: nat)
    requires k < |s| && s[k] == ',' && ',' !in s[..k]
    ensures Commas(s) == 1 + Commas(s[k + 1..])
  {
    assert s == s[..k] + [','] + s[k + 1..];
    assert multiset(s[..k])[','] == 0;
  }

  /** One element per comma, plus one. */
  lemma {:induction false} FieldsCount(s: string)
    ensures |Fields(s)| == Commas(s) + 1
    decreases |s|
  {
    if ',' in s {
      var k := IndexOf(s, ',');
      FieldsAtComma(s, k);
      FieldsCount(DropSpaces(s[k + 1..]));
      DropSpacesKeepsCommas(s[k + 1..]);
      CommaSplit(s, k);
    } else {
      assert multiset(s)[','] == 0;
    }
  }

  /** No element contains a comma. */
  lemma {:induction false} FieldsHaveNoComma(s: string)
    ensures forall i :: 0 <= i < |Fields(s)| ==> ',' !in Fields(s)[i]
    decreases |s|
  {
    if ',' in s {
      var k := IndexOf(s, ',');
      FieldsAtComma(s, k);
      FieldsHaveNoComma(DropSpaces(s[k + 1..]));
    }
  }

  /** The elements joined back with commas. */
  function Join(fields: seq<string>): string
    requires |fields| >= 1
  {
    if |fields| == 1 then fields[0] else fields[0] + [','] + Join(fields[1..])
  }

  /** No comma is directly followed by whitespace. */
  predicate NoSpaceAfterComma(s: string)
  {
    forall i :: 0 <= i < |s| - 1 ==> NotSpaceAfter(s, i)
  }

  predicate NotSpaceAfter(s: string, i: nat)
    requires i < |s| - 1
  {
    s[i] == ',' ==> !IsSpace(s[i + 1])
  }

  /** When no comma is followed by whitespace, splitting loses nothing:
      joining the elements with commas gives back the input. */
  lemma {:induction false} FieldsJoin(s: string)
    requires NoSpaceAfterComma(s)
    ensures Join(Fields(s)) == s
    decreases |s|
  {
    if ',' in s {
      var k := IndexOf(s, ',');
      var head, tail := s[..k], s[k + 1..];
      FieldsAtComma(s, k);
      TailAfterComma(s, k, tail);
      FieldsJoin(tail);
      FieldsNonEmpty(tail);
      JoinCons(head, Fields(tail));
      assert s == head + [','] + tail;
    }
  }

  lemma JoinCons(head: string, rest: seq<string>)
    requires |rest| >= 1
    ensures Join([head] + rest) == head + [','] + Join(rest)
  {
    assert ([head] + rest)[1..] == rest;
  }

  lemma FieldsNonEmpty(s: string)
    ensures |Fields(s)| >= 1
  {
  }

  /** Behind a comma of such a string no whitespace is skipped, and the
      rest keeps the property. */
  lemma TailAfterComma(s: string, k: nat, tail: string)
    requires NoSpaceAfterComma(s) && k < |s| && s[k] == ',' && tail == s[k + 1..]
    ensures DropSpaces(tail) == tail && NoSpaceAfterComma(tail)
  {
    if tail != [] {
      assert NotSpaceAfter(s, k);
      assert tail[0] == s[k + 1];
    }
    forall i | 0 <= i < |tail| - 1 ensures NotSpaceAfter(tail, i) {
      assert NotSpaceAfter(s, k + 1 + i);
      assert tail[i] == s[k + 1 + i] && tail[i + 1] == s[k + 2 + i];
    }
  }

  // ---------------------------------------------------------------
  // concat_strings
  // ---------------------------------------------------------------

  /** The arguments one after another. */
  function Concat(strs: seq<string>): string
  {
    if strs == [] then [] else Concat(strs[..|strs| - 1]) + strs[|strs| - 1]
  }

  /** The sum of the argument lengths, as the first pass adds them. */
  function TotalLength(strs: seq<string>): nat
  {
    if strs == [] then 0 else TotalLength(strs[..|strs| - 1]) + |strs[|strs| - 1]|
  }

  lemma {:induction false} ConcatLength(strs: seq<string>)
    ensures |Concat(strs)| == TotalLength(strs)
  {
    if strs != [] {
      ConcatLength(strs[..|strs| - 1]);
    }
  }

  /** Every argument appears at its offset, the sum of the lengths of
      those before it. */
  lemma {:induction false} ConcatPlacesEach(strs: seq<string>, k: nat)
    requires k < |strs|
    ensures TotalLength(strs[..k]) + |strs[k]| <= |Concat(strs)|
    ensures Concat(strs)[TotalLength(strs[..k])..TotalLength(strs[..k]) + |strs[k]|] == strs[k]
  {
    var n := |strs|;
    var init := strs[..n - 1];
    ConcatLength(strs);
    ConcatLength(strs[..k]);
    var prefix := Concat(init);
    assert Concat(strs) == prefix + strs[n - 1];
    if k == n - 1 {
      ConcatLength(init);
      assert strs[..k] == init;
      assert (prefix + strs[k])[|prefix|..|prefix| + |strs[k]|] == strs[k];
    } else {
      ConcatPlacesEach(init, k);
      assert init[..k] == strs[..k];
      SliceOfFront(prefix, strs[n - 1], TotalLength(strs[..k]), TotalLength(strs[..k]) + |strs[k]|);
    }
  }

  lemma SliceOfFront(a: string, b: string, lo: nat, hi: nat)
    requires lo <= hi <= |a|
    ensures (a + b)[lo..hi] == a[lo..hi]
  {
  }

  const SAVED_LENGTHS: nat := 5

  /** concat_strings: two passes over the arguments. The first adds up
      their lengths, remembering the first five; the second copies them
      into a buffer of that total plus one and ends it with a zero. */
  method ConcatStrings(strs: seq<string>) returns (ret: array<char>)
    ensures fresh(ret)
    ensures ret.Length == |Concat(strs)| + 1
    ensures ret[..|Concat(strs)|] == Concat(strs) && ret[|Concat(strs)|] == '\0'
  {
    var total, saved := SumLengths(strs);
    ConcatLength(strs);
    ret := new char[total + 1];
    var p := 0;
    var argcount := 0;
    var idx := 0;
    while idx < |strs|
      invariant 0 <= idx <= |strs|
      invariant argcount == if idx < SAVED_LENGTHS then idx else SAVED_LENGTHS
      invariant p == TotalLength(strs[..idx]) == |Concat(strs[..idx])|
      invariant p <= total
      invariant ret[..p] == Concat(strs[..idx])
      invariant forall a :: 0 <= a < SAVED_LENGTHS && a < |strs| ==> saved[a] == |strs[a]|
    {
      var len;
      if argcount < SAVED_LENGTHS {
        len := saved[argcount];
        argcount := argcount + 1;
      } else {
        len := |strs[idx]|;
      }
      assert len == |strs[idx]|;
      ConcatPrefixStep(strs, idx);
      p := CopyAt(ret, p, strs[idx]);
      idx := idx + 1;
    }
    assert strs[..idx] == strs;
    ret[p] := '\0';
  }

  /** The first pass of concat_strings: the total length, and the
      lengths of the first SAVED_LENGTHS arguments kept for the second
      pass. */
  method SumLengths(strs: seq<string>) returns (total: nat, saved: array<nat>)
    ensures fresh(saved) && saved.Length == SAVED_LENGTHS
    ensures total == TotalLength(strs)
    ensures forall a :: 0 <= a < SAVED_LENGTHS && a < |strs| ==> saved[a] == |strs[a]|
  {
    saved := new nat[SAVED_LENGTHS];
    total := 0;
    var argcount := 0;
    var idx := 0;
    while idx < |strs|
      invariant 0 <= idx <= |strs|
      invariant argcount == if idx < SAVED_LENGTHS then idx else SAVED_LENGTHS
      invariant forall a :: 0 <= a < argcount ==> saved[a] == |strs[a]|
      invariant total == TotalLength(strs[..idx])
    {
      var len := |strs[idx]|;
      if argcount < SAVED_LENGTHS {
        saved[argcount] := len;
        argcount := argcount + 1;
      }
      assert strs[..idx + 1][..idx] == strs[..idx];
      total := total + len;
      idx := idx + 1;
    }
    assert strs[..idx] == strs;
  }

  lemma ConcatPrefixStep(strs: seq<string>, idx: nat)
    requires idx < |strs|
    ensures Concat(strs[..idx + 1]) == Concat(strs[..idx]) + strs[idx]
    ensures TotalLength(strs[..idx + 1]) == TotalLength(strs[..idx]) + |strs[idx]|
    ensures TotalLength(strs[..idx + 1]) <= TotalLength(strs)
  {
    assert strs[..idx + 1][..idx] == strs[..idx];
    TotalLengthPrefix(strs, idx + 1);
  }

  lemma {:induction false} TotalLengthPrefix(strs: seq<string>, k: nat)
    requires k <= |strs|
    ensures TotalLength(strs[..k]) <= TotalLength(strs)
  {
    if k < |strs| {
      assert strs[..|strs| - 1][..k] == strs[..k];
      TotalLengthPrefix(strs[..|strs| - 1], k);
    } else {
      assert strs[..k] == strs;
    }
  }

  /** memcpy of `text` to offset `p`; returns the offset after it. */
  method CopyAt(buf: array<char>, p: nat, text: string) returns (q: nat)
    requires p + |text| <= buf.Length
    modifies buf
    ensures q == p + |text|
    ensures buf[..q] == old(buf[..p]) + text
    ensures forall i :: q <= i < buf.Length ==> buf[i] == old(buf[i])
  {
    q := p;
    while q < p + |text|
      invariant p <= q <= p + |text|
      invariant buf[..q] == old(buf[..p]) + text[..q - p]
      invariant forall i :: q <= i < buf.Length ==> buf[i] == old(buf[i])
    {
      buf[q] := text[q - p];
      assert buf[..q + 1] == buf[..q] + [text[q - p]];
      assert text[..q + 1 - p] == text[..q - p] + [text[q - p]];
      q := q + 1;
    }
    assert text[..q - p] == text;
  }

  // ---------------------------------------------------------------
  // merge_vecs
  // ---------------------------------------------------------------

  /** The strings of a possibly-NULL vector. */
  function Elements(v: Option<seq<string>>): seq<string>
  {
    if v.None? then [] else v.value
  }

  /** merge_vecs: the strings of `v1` followed by those of `v2`; NULL
      only when both are NULL. */
  function MergeVecs(v1: Option<seq<string>>, v2: Option<seq<string>>): (r: Option<seq<string>>)
    ensures r.None? <==> v1.None? && v2.None?
    ensures Elements(r) == Elements(v1) + Elements(v2)
  {
    if v1.None? then v2
    else if v2.None? then v1
    else if v2.value == [] then v1
    else Some(v1.value + v2.value)
  }

  // ---------------------------------------------------------------
  // html_quote_string
  // ---------------------------------------------------------------

  /** The replacement for one character: the entities of section 9.7.1
      of RFC 1866 for the ampersand, the angle brackets and the double
      quote, the numeric reference for the space, the character itself
      otherwise. */
  function Entity(c: char): string
  {
    match c
    case '&' => "&amp;"
    case '<' => "&lt;"
    case '>' => "&gt;"
    case '"' => "&quot;"
    case ' ' => "&#32;"
    case _ => [c]
  }

  /** The quoted text: each character replaced by its entity. */
  function Quote(s: string): string
  {
    if s == [] then [] else Entity(s[0]) + Quote(s[1..])
  }

  lemma {:induction false} QuoteSnoc(s: string, c: char)
    ensures Quote(s + [c]) == Quote(s) + Entity(c)
  {
    if s == [] {
      assert [c][1..] == [];
    } else {
      assert (s + [c])[1..] == s[1..] + [c];
      QuoteSnoc(s[1..], c);
      assert (Entity(s[0]) + Quote(s[1..])) + Entity(c) == Entity(s[0]) + (Quote(s[1..]) + Entity(c));
    }
  }

  /** Replaces entity references by the characters they stand for. */
  function Unquote(q: string): string
  {
    if q == [] then []
    else if "&amp;" <= q then ['&'] + Unquote(q[5..])
    else if "&lt;" <= q then ['<'] + Unquote(q[4..])
    else if "&gt;" <= q then ['>'] + Unquote(q[4..])
    else if "&quot;" <= q then ['"'] + Unquote(q[6..])
    else if "&#32;" <= q then [' '] + Unquote(q[5..])
    else [q[0]] + Unquote(q[1..])
  }

  lemma UnquoteEntity(c: char, q: string)
    ensures Unquote(Entity(c) + q) == [c] + Unquote(q)
  {
    var e := Entity(c);
    var x := e + q;
    assert x[..|e|] == e && x[|e|..] == q;
    if c == '&' {
    } else if c == '<' {
      assert x[1] == 'l';
    } else if c == '>' {
      assert x[1] == 'g';
    } else if c == '"' {
      assert x[1] == 'q';
    } else if c == ' ' {
      assert x[1] == '#';
    } else {
      assert x[0] == c;
    }
  }

  /** Quoting is undone by Unquote: no information is lost. */
  lemma {:induction false} QuoteRoundTrip(s: string)
    ensures Unquote(Quote(s)) == s
  {
    if s != [] {
      UnquoteEntity(s[0], Quote(s[1..]));
      QuoteRoundTrip(s[1..]);
    }
  }

  /** The quoted text holds none of the characters that are replaced,
      except the ampersands that start entities. */
  lemma {:induction false} QuoteIsClean(s: string)
    ensures forall i :: 0 <= i < |Quote(s)| ==>
      Quote(s)[i] != '<' && Quote(s)[i] != '>' && Quote(s)[i] != '"' && Quote(s)[i] != ' '
  {
    if s != [] {
      QuoteIsClean(s[1..]);
      var e := Entity(s[0]);
      assert forall i :: 0 <= i < |e| ==> e[i] != '<' && e[i] != '>' && e[i] != '"' && e[i] != ' ';
      assert forall i :: |e| <= i < |Quote(s)| ==> Quote(s)[i] == Quote(s[1..])[i - |e|];
    }
  }

  /** The growth the first pass of html_quote_string counts for `c`. */
  function ExtraLength(c: char): (n: nat)
    ensures |Entity(c)| == 1 + n
  {
    if c == '&' then 4
    else if c == '<' || c == '>' then 3
    else if c == '"' then 5
    else if c == ' ' then 4
    else 0
  }

  /** html_quote_string: the first pass counts the size of the quoted
      text, the second writes it into a buffer of that size plus one and
      ends it with a zero. */
  method HtmlQuoteString(s: string) returns (res: array<char>)
    ensures fresh(res)
    ensures res.Length == |Quote(s)| + 1
    ensures res[..|Quote(s)|] == Quote(s) && res[|Quote(s)|] == '\0'
  {
    var i := 0;
    var k := 0;
    while k < |s|
      invariant 0 <= k <= |s|
      invariant i == |Quote(s[..k])|
    {
      QuoteStep(s, k);
      i := i + 1 + ExtraLength(s[k]);
      k := k + 1;
    }
    assert s[..k] == s;
    res := new char[i + 1];
    var p: nat := 0;
    k := 0;
    assert s[0..] == s && s[..0] == [];
    while k < |s|
      invariant 0 <= k <= |s|
      invariant p + |Quote(s[k..])| == i
      invariant res[..p] == Quote(s[..k])
    {
      QuoteStep(s, k);
      p := PutEntity(res, p, s[k]);
      k := k + 1;
    }
    assert s[..k] == s;
    res[p] := '\0';
  }

  lemma QuoteStep(s: string, k: nat)
    requires k < |s|
    ensures Quote(s[..k + 1]) == Quote(s[..k]) + Entity(s[k])
    ensures Quote(s[k..]) == Entity(s[k]) + Quote(s[k + 1..])
  {
    QuoteSnoc(s[..k], s[k]);
    assert s[..k + 1] == s[..k] + [s[k]];
    assert s[k..][1..] == s[k + 1..];
  }

  /** The `switch` of the second pass: write the replacement for `c` at
      `p` and advance past it. */
  method PutEntity(res: array<char>, p: nat, c: char) returns (q: nat)
    requires p + |Entity(c)| <= res.Length
    modifies res
    ensures q == p + |Entity(c)|
    ensures res[..q] == old(res[..p]) + Entity(c)
  {
    match c {
      case '&' =>
        q := CopyAt(res, p, "&amp;");
      case '<' =>
        q := CopyAt(res, p, "&lt;");
      case '>' =>
        q := CopyAt(res, p, "&gt;");
      case '"' =>
        q := CopyAt(res, p, "&quot;");
      case ' ' =>
        q := CopyAt(res, p, "&#32;");
      case _ =>
        q := CopyAt(res, p, [c]);
    }
  }
}
