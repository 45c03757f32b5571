/** Shared vocabulary: optional values (C's NULL pointers), bytes, the
    C-locale TOLOWER macro, and the sequence operations that linked-list
    prepending and filtering loops amount to. */
module Common {

  /** A possibly-NULL pointer. */
  datatype Option<T> = None | Some(value: T)

  newtype byte = b: int | 0 <= b < 256

  /** TOLOWER in the C locale: only 'A'..'Z' change. */
  function LowerChar(c: char): char
  {
    if 'A' <= c <= 'Z' then (c as int + 32) as char else c
  }

  /** The string with every character passed through TOLOWER. */
  function Lower(s: string): string
  {
    seq(|s|, i requires 0 <= i < |s| => LowerChar(s[i]))
  }

  /** ISSPACE in the C locale. */
  predicate IsSpace(c: char)
  {
    c == ' ' || c == '\t' || c == '\n' || c == '\r' || c == '\U{0B}' || c == '\U{0C}'
  }

  lemma LowerIdempotent(s: string)
    ensures Lower(Lower(s)) == Lower(s)
  {
  }

  /** `t` is a suffix of `s` once both are folded through TOLOWER. */
  predicate IsSuffixFold(t: string, s: string)
  {
    |t| <= |s| && Lower(s[|s| - |t|..]) == Lower(t)
  }

  predicate IsSuffix(t: string, s: string)
  {
    |t| <= |s| && s[|s| - |t|..] == t
  }

  function Reverse<T>(s: seq<T>): seq<T>
  {
    if s == [] then [] else Reverse(s[1..]) + [s[0]]
  }

  lemma {:induction false} ReverseLength<T>(s: seq<T>)
    ensures |Reverse(s)| == |s|
  {
    if s != [] {
      ReverseLength(s[1..]);
    }
  }

  lemma {:induction false} ReverseAt<T>(s: seq<T>, k: nat)
    requires k < |s|
    ensures |Reverse(s)| == |s| && Reverse(s)[k] == s[|s| - 1 - k]
  {
    ReverseLength(s);
    if k < |s| - 1 {
      ReverseAt(s[1..], k);
    }
  }

  /** Prepending in a loop builds the reverse of what was visited. */
  lemma {:induction false} ReverseSnoc<T>(s: seq<T>, x: T)
    ensures Reverse(s + [x]) == [x] + Reverse(s)
  {
    if s != [] {
      assert (s + [x])[1..] == s[1..] + [x];
      ReverseSnoc(s[1..], x);
    } else {
      assert Reverse([x]) == Reverse([x][1..]) + [x];
    }
  }

  lemma {:induction false} ReverseReverse<T>(s: seq<T>)
    ensures Reverse(Reverse(s)) == s
  {
    if s != [] {
      ReverseReverse(s[1..]);
      ReverseSnoc(Reverse(s[1..]), s[0]);
      assert s == [s[0]] + s[1..];
    }
  }

  /** The elements `f` maps to Some, in order: a loop that skips the
      entries `f` rejects and converts the others. */
  function Collect<A, B>(s: seq<A>, f: A -> Option<B>): seq<B>
  {
    if s == [] then []
    else (if f(s[0]).Some? then [f(s[0]).value] else []) + Collect(s[1..], f)
  }

  lemma {:induction false} CollectSnoc<A, B>(s: seq<A>, x: A, f: A -> Option<B>)
    ensures Collect(s + [x], f) == Collect(s, f) + (if f(x).Some? then [f(x).value] else [])
  {
    if s == [] {
      assert [x][1..] == [];
    } else {
      var t := s + [x];
      assert t[0] == s[0];
      assert t[1..] == s[1..] + [x];
      CollectSnoc(s[1..], x, f);
      var head := if f(s[0]).Some? then [f(s[0]).value] else [];
      assert Collect(t, f) == head + Collect(t[1..], f);
      assert Collect(s, f) == head + Collect(s[1..], f);
    }
  }

  /** Number of elements `f` keeps. */
  function CountSome<A, B>(s: seq<A>, f: A -> Option<B>): nat
  {
    if s == [] then 0 else (if f(s[0]).Some? then 1 else 0) + CountSome(s[1..], f)
  }

  lemma {:induction false} CollectLength<A, B>(s: seq<A>, f: A -> Option<B>)
    ensures |Collect(s, f)| == CountSome(s, f)
  {
    if s != [] {
      CollectLength(s[1..], f);
    }
  }

  /** One step of a loop that prepends each converted element: the
      reversed collection grows at the front. */
  lemma PrependCollectStep<A, B>(s: seq<A>, i: nat, f: A -> Option<B>)
    requires i < |s|
    ensures Reverse(Collect(s[..i + 1], f)) ==
      (if f(s[i]).Some? then [f(s[i]).value] else []) + Reverse(Collect(s[..i], f))
    ensures |Collect(s[..i + 1], f)| == |Collect(s[..i], f)| + (if f(s[i]).Some? then 1 else 0)
  {
    assert s[..i + 1] == s[..i] + [s[i]];
    CollectSnoc(s[..i], s[i], f);
    if f(s[i]).Some? {
      ReverseSnoc(Collect(s[..i], f), f(s[i]).value);
    } else {
      assert Collect(s[..i], f) + [] == Collect(s[..i], f);
    }
  }

  /** The collected elements are exactly the images of the accepted
      elements. */
  lemma {:induction false} CollectMembers<A, B>(s: seq<A>, f: A -> Option<B>, x: B)
    ensures x in Collect(s, f) <==> exists i :: 0 <= i < |s| && f(s[i]) == Some(x)
  {
    if s != [] {
      CollectMembers(s[1..], f, x);
      if exists i :: 0 <= i < |s| - 1 && f(s[1..][i]) == Some(x) {
        var i :| 0 <= i < |s| - 1 && f(s[1..][i]) == Some(x);
        assert f(s[i + 1]) == Some(x);
      }
      if exists i :: 0 <= i < |s| && f(s[i]) == Some(x) {
        var i :| 0 <= i < |s| && f(s[i]) == Some(x);
        if i > 0 {
          assert f(s[1..][i - 1]) == Some(x);
        }
      }
    }
  }

  /** Nothing is collected when `f` rejects every element. */
  lemma {:induction false} CollectNone<A, B>(s: seq<A>, f: A -> Option<B>)
    requires forall i :: 0 <= i < |s| ==> f(s[i]).None?
    ensures Collect(s, f) == []
  {
    if s != [] {
      CollectNone(s[1..], f);
    }
  }

  /** The elements satisfying `p`, in their original order. */
  function Filter<T>(s: seq<T>, p: T -> bool): seq<T>
  {
    if s == [] then [] else (if p(s[0]) then [s[0]] else []) + Filter(s[1..], p)
  }

  lemma {:induction false} FilterSnoc<T>(s: seq<T>, x: T, p: T -> bool)
    ensures Filter(s + [x], p) == Filter(s, p) + (if p(x) then [x] else [])
  {
    if s == [] {
      assert [x][1..] == [];
    } else {
      var t := s + [x];
      assert t[0] == s[0];
      assert t[1..] == s[1..] + [x];
      FilterSnoc(s[1..], x, p);
      var head := if p(s[0]) then [s[0]] else [];
      assert Filter(t, p) == head + Filter(t[1..], p);
      assert Filter(s, p) == head + Filter(s[1..], p);
    }
  }

  lemma {:induction false} FilterConcat<T>(a: seq<T>, b: seq<T>, p: T -> bool)
    ensures Filter(a + b, p) == Filter(a, p) + Filter(b, p)
  {
    if a != [] {
      var x := if p(a[0]) then [a[0]] else [];
      assert (a + b)[0] == a[0] && (a + b)[1..] == a[1..] + b;
      calc {
        Filter(a + b, p);
        x + Filter(a[1..] + b, p);
        { FilterConcat(a[1..], b, p); }
        x + (Filter(a[1..], p) + Filter(b, p));
        (x + Filter(a[1..], p)) + Filter(b, p);
      }
    } else {
      assert a + b == b;
    }
  }

  lemma {:induction false} FilterAll<T>(s: seq<T>, p: T -> bool)
    requires forall i :: 0 <= i < |s| ==> p(s[i])
    ensures Filter(s, p) == s
  {
    if s != [] {
      FilterAll(s[1..], p);
    }
  }

  lemma {:induction false} FilterNone<T>(s: seq<T>, p: T -> bool)
    requires forall i :: 0 <= i < |s| ==> !p(s[i])
    ensures Filter(s, p) == []
  {
    if s != [] {
      FilterNone(s[1..], p);
    }
  }

  lemma {:induction false} FilterMembers<T>(s: seq<T>, p: T -> bool, x: T)
    ensures x in Filter(s, p) <==> x in s && p(x)
  {
    if s != [] {
      FilterMembers(s[1..], p, x);
      assert s == [s[0]] + s[1..];
    }
  }
}
