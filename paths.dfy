/** File-name and pattern helpers of utils.c: front and tail comparison,
    accept lists, file extensions, HTML suffixes, merging a base name
    with a file name, and the search for an unused numbered file name.
    Strings are C strings without their terminating zero; where a loop
    reads the terminator, `At` supplies it. */
module Paths {
  import opened Common
  import opened Numbers

  /** The character at index `i` of the C string `s`, where index |s|
      holds the terminating zero. */
  function At(s: string, i: int): char
    requires 0 <= i <= |s|
  {
    if i == |s| then '\0' else s[i]
  }

  // ---------------------------------------------------------------
  // frontcmp
  // ---------------------------------------------------------------

  /** frontcmp: walk both strings while they agree, then report whether
      `s1` ran out; that is, whether `s1` is a prefix of `s2`. */
  function Frontcmp(s1: string, s2: string): (r: bool)
    ensures r <==> s1 <= s2
  {
    if s1 == [] then true
    else if s2 == [] || s1[0] != s2[0] then false
    else
      var r := Frontcmp(s1[1..], s2[1..]);
      assert s1 == [s1[0]] + s1[1..] && s2 == [s2[0]] + s2[1..];
      r
  }

  // ---------------------------------------------------------------
  // match_tail
  // ---------------------------------------------------------------

  /** The comparison of one character pair, with or without TOLOWER. */
  predicate SameChar(a: char, b: char, fold: bool)
  {
    if fold then LowerChar(a) == LowerChar(b) else a == b
  }

  /** The backward loop of match_tail, started at indices `i` and `j`:
      it stops on the first mismatch, or when either index drops below
      zero, and yields the final `j`. */
  function TailScan(s: string, t: string, i: int, j: int, fold: bool): (k: int)
    requires -1 <= i <= |s| && -1 <= j <= |t|
    ensures -1 <= k <= j
    decreases i + 1
  {
    if i < 0 || j < 0 then j
    else if !SameChar(At(s, i), At(t, j), fold) then j
    else TailScan(s, t, i - 1, j - 1, fold)
  }

  /** The scan reaches -1 exactly when `t` is no longer than `s` and
      every remaining character of `t` agrees with its counterpart
      aligned at the end of `s`. */
  lemma {:induction false} TailScanMatches(s: string, t: string, i: int, j: int, fold: bool)
    requires -1 <= i <= |s| && -1 <= j <= |t| && i - j == |s| - |t|
    ensures TailScan(s, t, i, j, fold) == -1 <==>
      (|t| <= |s| && forall k :: 0 <= k <= j ==> SameChar(At(t, k), At(s, k + |s| - |t|), fold))
  {
    if i < 0 || j < 0 {
    } else if !SameChar(At(s, i), At(t, j), fold) {
    } else {
      TailScanMatches(s, t, i - 1, j - 1, fold);
    }
  }

  /** Pointwise agreement of `t` with the end of `s` is the suffix
      relation, folded or exact. */
  lemma AlignedIsSuffix(s: string, t: string, fold: bool)
    requires |t| <= |s|
    ensures (forall k :: 0 <= k <= |t| ==> SameChar(At(t, k), At(s, k + |s| - |t|), fold)) <==>
      (if fold then IsSuffixFold(t, s) else IsSuffix(t, s))
  {
    var d := |s| - |t|;
    if forall k :: 0 <= k <= |t| ==> SameChar(At(t, k), At(s, k + d), fold) {
      if fold {
        forall k | 0 <= k < |t| ensures Lower(s[d..])[k] == Lower(t)[k] {
          assert SameChar(At(t, k), At(s, k + d), fold);
        }
        assert Lower(s[d..]) == Lower(t);
      } else {
        forall k | 0 <= k < |t| ensures s[d..][k] == t[k] {
          assert SameChar(At(t, k), At(s, k + d), fold);
        }
        assert s[d..] == t;
      }
    }
    if fold && IsSuffixFold(t, s) {
      forall k | 0 <= k <= |t| ensures SameChar(At(t, k), At(s, k + d), fold) {
        if k < |t| {
          assert Lower(s[d..])[k] == Lower(t)[k];
        }
      }
    }
    if !fold && IsSuffix(t, s) {
      forall k | 0 <= k <= |t| ensures SameChar(At(t, k), At(s, k + d), fold) {
        if k < |t| {
          assert s[d..][k] == t[k];
        }
      }
    }
  }

  /** match_tail: nonzero iff `tail` ends `s`, compared through TOLOWER
      when `fold` is set. */
  function MatchTail(s: string, tail: string, fold: bool): (r: bool)
    ensures r <==> if fold then IsSuffixFold(tail, s) else IsSuffix(tail, s)
  {
    TailScanMatches(s, tail, |s|, |tail|, fold);
    if |tail| <= |s| then AlignedIsSuffix(s, tail, fold); TailScan(s, tail, |s|, |tail|, fold) == -1
    else TailScan(s, tail, |s|, |tail|, fold) == -1
  }

  lemma MatchTailExamples()
    ensures MatchTail("abc", "bc", false)
    ensures !MatchTail("abc", "ab", false)
    ensures MatchTail("abc", "abc", false)
    ensures MatchTail("index.HTML", ".html", true) && !MatchTail("index.HTML", ".html", false)
  {
    assert "abc"[1..] == "bc";
    assert "abc"[1..] != "ab";
    assert "index.HTML"[5..] == ".HTML";
    assert Lower(".HTML") == ".html" == Lower(".html");
  }

  // ---------------------------------------------------------------
  // has_wildcards_p, in_acclist
  // ---------------------------------------------------------------

  predicate Wildcard(c: char)
  {
    c == '*' || c == '?' || c == '[' || c == ']'
  }

  /** has_wildcards_p: nonzero iff some character is a globbing
      wildcard. */
  function HasWildcards(s: string): (r: bool)
    ensures r <==> exists i :: 0 <= i < |s| && Wildcard(s[i])
  {
    if s == [] then false
    else if Wildcard(s[0]) then true
    else
      var r := HasWildcards(s[1..]);
      assert forall i :: 1 <= i < |s| ==> s[i] == s[1..][i - 1];
      r
  }

  /** One accept-list entry against `s`: a pattern with wildcards goes
      to `fnmatch` (an oracle here, true when it reports a match);
      otherwise a tail comparison when matching backward, and plain
      equality when not. */
  predicate EntryAccepts(entry: string, s: string, backward: bool, fnmatch: (string, string) -> bool)
  {
    if HasWildcards(entry) then fnmatch(entry, s)
    else if backward then IsSuffix(entry, s)
    else entry == s
  }

  /** in_acclist: true iff some entry of the list accepts `s`. */
  function InAcclist(accepts: seq<string>, s: string, backward: bool,
                     fnmatch: (string, string) -> bool): (r: bool)
    ensures r <==> exists i :: 0 <= i < |accepts| && EntryAccepts(accepts[i], s, backward, fnmatch)
  {
    if accepts == [] then false
    else
      var entry := accepts[0];
      var hit :=
        if HasWildcards(entry) then fnmatch(entry, s)
        else if backward then MatchTail(s, entry, false)
        else s == entry;
      if hit then true
      else
        var r := InAcclist(accepts[1..], s, backward, fnmatch);
        assert forall i :: 1 <= i < |accepts| ==> accepts[i] == accepts[1..][i - 1];
        r
  }

  /** Without wildcards, a backward accept list accepts exactly the
      names that end with one of its entries. */
  lemma InAcclistPlainTails(accepts: seq<string>, s: string, fnmatch: (string, string) -> bool)
    requires forall i :: 0 <= i < |accepts| ==> !HasWildcards(accepts[i])
    ensures InAcclist(accepts, s, true, fnmatch) <==>
      exists i :: 0 <= i < |accepts| && |accepts[i]| <= |s| && s[|s| - |accepts[i]|..] == accepts[i]
  {
    if InAcclist(accepts, s, true, fnmatch) {
      var i :| 0 <= i < |accepts| && EntryAccepts(accepts[i], s, true, fnmatch);
      assert IsSuffix(accepts[i], s);
    }
    if exists i :: 0 <= i < |accepts| && |accepts[i]| <= |s| && s[|s| - |accepts[i]|..] == accepts[i] {
      var i :| 0 <= i < |accepts| && |accepts[i]| <= |s| && s[|s| - |accepts[i]|..] == accepts[i];
      assert EntryAccepts(accepts[i], s, true, fnmatch);
    }
  }

  // ---------------------------------------------------------------
  // suffix, has_html_suffix_p
  // ---------------------------------------------------------------

  /** Neither a slash nor a dot occurs in `s` from index `k` on. */
  predicate NoSeparatorFrom(s: string, k: nat)
  {
    forall m :: k <= m < |s| ==> s[m] != '/' && s[m] != '.'
  }

  /** The backward loop of suffix: from index `i`, step left until index
      0 or a slash or dot (the terminator at |s| is neither). */
  function SuffixScan(s: string, i: nat): (k: nat)
    requires i <= |s|
    ensures k <= i
    ensures k == 0 || (k < |s| && (s[k] == '/' || s[k] == '.'))
    ensures forall m :: k < m <= i && m < |s| ==> s[m] != '/' && s[m] != '.'
  {
    if i == 0 || (i < |s| && (s[i] == '/' || s[i] == '.')) then i
    else SuffixScan(s, i - 1)
  }

  /** suffix: the offset of the text after the last dot of the final
      path component, or None when a slash comes first or there is no
      dot. */
  function Suffix(s: string): (r: Option<nat>)
    ensures r.Some? ==> 1 <= r.value <= |s| && s[r.value - 1] == '.' && NoSeparatorFrom(s, r.value)
    ensures r.None? ==> forall m :: 0 <= m < |s| && s[m] == '.' ==> '/' in s[m + 1..]
  {
    var i := SuffixScan(s, |s|);
    if i < |s| && s[i] == '.' then Some(i + 1)
    else
      assert forall m :: 0 <= m < |s| && s[m] == '.' ==> m < i && s[m + 1..][i - m - 1] == '/';
      None
  }

  /** Where suffix finds an extension it is the only one: the result is
      determined by the dot it follows. */
  lemma SuffixUnique(s: string, k: nat)
    requires 1 <= k <= |s| && s[k - 1] == '.' && NoSeparatorFrom(s, k)
    ensures Suffix(s) == Some(k)
  {
  }

  /** When every dot is followed by a slash somewhere later, suffix
      finds no extension. */
  lemma SuffixNoneWhen(s: string)
    requires forall k :: 0 <= k < |s| && s[k] == '.' ==> exists m :: k < m < |s| && s[m] == '/'
    ensures Suffix(s) == None
  {
  }

  /** The text suffix returns a pointer to, if any. */
  function SuffixText(s: string): Option<string>
  {
    match Suffix(s)
    case None => None
    case Some(k) => Some(s[k..])
  }

  lemma SuffixExamples()
    ensures SuffixText("foo.bar") == Some("bar")
    ensures SuffixText("foo.bar.baz") == Some("baz")
    ensures SuffixText("/foo/bar") == None
    ensures SuffixText("/foo.bar/baz") == None
  {
    SuffixUnique("foo.bar", 4);
    assert "foo.bar"[4..] == "bar";
    SuffixUnique("foo.bar.baz", 8);
    assert "foo.bar.baz"[8..] == "baz";
    var a := "/foo/bar";
    assert forall m :: 0 <= m < |a| ==> a[m] != '.';
    var b := "/foo.bar/baz";
    assert forall k :: 0 <= k < |b| && b[k] == '.' ==> k == 4;
    assert b[8] == '/';
    SuffixNoneWhen(b);
  }

  /** strcasecmp(a, b) == 0 in the C locale. */
  predicate CaseEqual(a: string, b: string)
  {
    Lower(a) == Lower(b)
  }

  /** has_html_suffix_p: the extension is "html" or "htm", or one
      arbitrary character followed by "html", all without regard to
      case. */
  function HasHtmlSuffix(fname: string): (r: bool)
    ensures r ==> Suffix(fname).Some?
  {
    match SuffixText(fname)
    case None => false
    case Some(suf) =>
      CaseEqual(suf, "html") || CaseEqual(suf, "htm") || (|suf| > 0 && CaseEqual(suf[1..], "html"))
  }

  /** A string that folds to "html" or "htm" has no slash or dot. */
  lemma FoldedWordHasNoSeparator(w: string, word: string)
    requires word == "html" || word == "htm"
    requires CaseEqual(w, word)
    ensures NoSeparatorFrom(w, 0)
  {
    forall m | 0 <= m < |w| ensures w[m] != '/' && w[m] != '.' {
      assert Lower(w)[m] == Lower(word)[m];
    }
  }

  /** The name ends, ignoring case, with ".html" or ".htm", or with a
      dot, one character that is neither a slash nor a dot, and
      "html". */
  predicate HtmlEnding(f: string)
  {
    var n := |f|;
    (n >= 5 && f[n - 5] == '.' && CaseEqual(f[n - 4..], "html")) ||
    (n >= 4 && f[n - 4] == '.' && CaseEqual(f[n - 3..], "htm")) ||
    (n >= 6 && f[n - 6] == '.' && f[n - 5] != '/' && f[n - 5] != '.' && CaseEqual(f[n - 4..], "html"))
  }

  /** has_html_suffix_p read from the end of the name. */
  lemma HtmlSuffixByEnding(f: string)
    ensures HasHtmlSuffix(f) <==> HtmlEnding(f)
  {
    if HasHtmlSuffix(f) {
      HtmlSuffixEnds(f);
    }
    if HtmlEnding(f) {
      var n := |f|;
      if n >= 5 && f[n - 5] == '.' && CaseEqual(f[n - 4..], "html") {
        WordEnding(f, "html", n - 4);
      } else if n >= 4 && f[n - 4] == '.' && CaseEqual(f[n - 3..], "htm") {
        WordEnding(f, "htm", n - 3);
      } else {
        OneMoreEnding(f);
      }
    }
  }

  lemma HtmlSuffixEnds(f: string)
    requires HasHtmlSuffix(f)
    ensures HtmlEnding(f)
  {
    var k := Suffix(f).value;
    var suf := f[k..];
    assert SuffixText(f) == Some(suf);
    if CaseEqual(suf, "html") {
      EndingHtml(f, k);
    } else if CaseEqual(suf, "htm") {
      EndingHtm(f, k);
    } else {
      EndingDotWord(f, k);
    }
  }

  /** The extension after the dot at `k - 1` folds to "html". */
  lemma EndingHtml(f: string, k: nat)
    requires 1 <= k <= |f| && f[k - 1] == '.' && CaseEqual(f[k..], "html")
    ensures HtmlEnding(f)
  {
    assert |Lower(f[k..])| == 4;
    assert k == |f| - 4 && f[|f| - 4..] == f[k..];
  }

  /** The extension after the dot at `k - 1` folds to "htm". */
  lemma EndingHtm(f: string, k: nat)
    requires 1 <= k <= |f| && f[k - 1] == '.' && CaseEqual(f[k..], "htm")
    ensures HtmlEnding(f)
  {
    assert |Lower(f[k..])| == 3;
    assert k == |f| - 3 && f[|f| - 3..] == f[k..];
  }

  /** An extension of one character that is not a separator followed by
      "html". */
  lemma EndingDotWord(f: string, k: nat)
    requires Suffix(f) == Some(k) && k < |f| && CaseEqual(f[k..][1..], "html")
    ensures HtmlEnding(f)
  {
    var n := |f|;
    assert |Lower(f[k..][1..])| == 4;
    assert k == n - 5;
    assert f[k..][1..] == f[n - 4..];
    assert f[k] != '/' && f[k] != '.';
  }

  /** A name ending with a dot and a word that folds to "html" or "htm"
      has that word as its extension. */
  lemma WordEnding(f: string, word: string, k: nat)
    requires word == "html" || word == "htm"
    requires 1 <= k <= |f| && f[k - 1] == '.' && CaseEqual(f[k..], word)
    ensures HasHtmlSuffix(f)
  {
    FoldedWordHasNoSeparator(f[k..], word);
    forall m | k <= m < |f| ensures f[m] != '/' && f[m] != '.' {
      assert f[k..][m - k] == f[m];
    }
    SuffixUnique(f, k);
  }

  lemma OneMoreEnding(f: string)
    requires |f| >= 6 && f[|f| - 6] == '.' && f[|f| - 5] != '/' && f[|f| - 5] != '.'
    requires CaseEqual(f[|f| - 4..], "html")
    ensures HasHtmlSuffix(f)
  {
    var n := |f|;
    FoldedWordHasNoSeparator(f[n - 4..], "html");
    forall m | n - 5 <= m < n ensures f[m] != '/' && f[m] != '.' {
      if m > n - 5 {
        assert f[n - 4..][m - (n - 4)] == f[m];
      }
    }
    SuffixUnique(f, n - 5);
    assert f[n - 5..][1..] == f[n - 4..];
  }

  // ---------------------------------------------------------------
  // file_merge
  // ---------------------------------------------------------------

  /** strrchr: the index of the last occurrence of `c`, if any. */
  function LastIndexOf(s: string, c: char): (r: Option<nat>)
    ensures r.Some? ==> r.value < |s| && s[r.value] == c && c !in s[r.value + 1..]
    ensures r.None? ==> c !in s
  {
    if s == [] then None
    else if s[|s| - 1] == c then
      assert s[|s|..] == [];
      Some(|s| - 1)
    else
      var r := LastIndexOf(s[..|s| - 1], c);
      assert s == s[..|s| - 1] + [s[|s| - 1]];
      if r.Some? then
        assert s[r.value + 1..] == s[..|s| - 1][r.value + 1..] + [s[|s| - 1]];
        r
      else r
  }

  /** file_merge: `file` placed in the directory part of `base`, that
      is, after the last slash of `base`; without a slash, `file` alone.
      The result is `file` preceded by a prefix of `base` that is empty
      or ends with a slash, and beyond which `base` has no slash. */
  function FileMerge(base: string, file: string): (r: string)
    ensures |file| <= |r| && r[|r| - |file|..] == file
    ensures var dir := r[..|r| - |file|];
      dir <= base && '/' !in base[|dir|..] && (dir == [] || dir[|dir| - 1] == '/')
  {
    match LastIndexOf(base, '/')
    case None => file
    case Some(cut) =>
      var r := base[..cut] + ['/'] + file;
      assert r[..|r| - |file|] == base[..cut + 1];
      r
  }

  /** The last occurrence is determined by its position. */
  lemma LastIndexOfUnique(s: string, c: char, k: nat)
    requires k < |s| && s[k] == c && c !in s[k + 1..]
    ensures LastIndexOf(s, c) == Some(k)
  {
  }

  lemma FileMergeExamples()
    ensures FileMerge("/foo/bar", "baz") == "/foo/baz"
    ensures FileMerge("/foo/bar/", "baz") == "/foo/bar/baz"
    ensures FileMerge("foo", "bar") == "bar"
  {
    LastIndexOfUnique("/foo/bar", '/', 4);
    LastIndexOfUnique("/foo/bar/", '/', 8);
  }

  // ---------------------------------------------------------------
  // unique_name, unique_name_1
  // ---------------------------------------------------------------

  /** The name unique_name_1 tries for `count`: the prefix, a dot and the
      count in decimal, as number_to_string prints it. */
  function NumberedName(prefix: string, count: nat): string
  {
    prefix + "." + Decimal(count)
  }

  lemma NumberedNameInjective(prefix: string, a: nat, b: nat)
    requires NumberedName(prefix, a) == NumberedName(prefix, b)
    ensures a == b
  {
    var p := |prefix| + 1;
    assert Decimal(a) == NumberedName(prefix, a)[p..];
    assert Decimal(b) == NumberedName(prefix, b)[p..];
    DecimalInjective(a, b);
  }

  /** `n` is the smallest count from 1 whose numbered name is free. */
  predicate FirstFree(prefix: string, existing: set<string>, n: nat)
  {
    n >= 1 && NumberedName(prefix, n) !in existing &&
    forall k :: 1 <= k < n ==> NumberedName(prefix, k) in existing
  }

  /** unique_name_1: try prefix.1, prefix.2, ... until a name does not
      exist. `existing` stands for the file system as file_exists_p
      sees it. */
  method UniqueName1(prefix: string, existing: set<string>) returns (name: string)
    ensures exists n :: FirstFree(prefix, existing, n) && name == NumberedName(prefix, n)
  {
    var count: nat := 1;
    ghost var tried: set<string> := {};
    name := NumberedName(prefix, count);
    count := count + 1;
    while name in existing
      invariant count >= 2 && name == NumberedName(prefix, count - 1)
      invariant tried <= existing
      invariant forall k :: 1 <= k < count - 1 ==> NumberedName(prefix, k) in tried
      invariant forall k :: k >= count - 1 ==> NumberedName(prefix, k) !in tried
      decreases |existing - tried|
    {
      assert existing - (tried + {name}) < existing - tried;
      forall k | k >= count ensures NumberedName(prefix, k) != name {
        if NumberedName(prefix, k) == name {
          NumberedNameInjective(prefix, k, count - 1);
        }
      }
      forall k | 1 <= k < count ensures NumberedName(prefix, k) in tried + {name} {
        if k == count - 1 {
          assert NumberedName(prefix, k) == name;
        }
      }
      tried := tried + {name};
      name := NumberedName(prefix, count);
      count := count + 1;
    }
    assert FirstFree(prefix, existing, count - 1);
  }

  /** unique_name: `file` itself when it does not exist, otherwise the
      first free numbered name. */
  method UniqueName(file: string, existing: set<string>) returns (name: string)
    ensures name !in existing
    ensures file !in existing ==> name == file
    ensures file in existing ==> exists n :: FirstFree(file, existing, n) && name == NumberedName(file, n)
  {
    if file !in existing {
      return file;
    }
    name := UniqueName1(file, existing);
  }
}
