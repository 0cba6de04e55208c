/** Strictly sorted sequences, and the byte-wise order of text. */
module Ordering {

  ghost predicate StrictlySorted<T>(s: seq<T>, less: (T, T) -> bool) {
    forall i, j :: 0 <= i < j < |s| ==> less(s[i], s[j])
  }

  ghost predicate Asymmetric<T(!new)>(less: (T, T) -> bool) {
    forall x, y :: less(x, y) ==> !less(y, x)
  }

  ghost predicate SameMembers<T(!new)>(s: seq<T>, t: seq<T>) {
    forall x :: x in s <==> x in t
  }

  /** A strictly sorted sequence is determined by its members. */
  lemma {:induction false} SortedByMembers<T(!new)>(s: seq<T>, t: seq<T>, less: (T, T) -> bool)
    requires Asymmetric(less) && StrictlySorted(s, less) && StrictlySorted(t, less)
    requires SameMembers(s, t)
    ensures s == t
  {
    if s == [] && t == [] {
    } else if t == [] {
      FirstIsMember(s);
    } else if s == [] {
      FirstIsMember(t);
    } else {
      assert s[0] in t && t[0] in s;
      assert s[0] == t[0];
      forall x
        ensures x in s[1..] <==> x in t[1..]
      {
        Tail(s, less, x);
        Tail(t, less, x);
      }
      SortedByMembers(s[1..], t[1..], less);
      assert s == [s[0]] + s[1..] && t == [t[0]] + t[1..];
    }
  }

  lemma FirstIsMember<T>(s: seq<T>)
    requires s != []
    ensures s[0] in s
  {
  }

  lemma Tail<T(!new)>(s: seq<T>, less: (T, T) -> bool, x: T)
    requires Asymmetric(less) && StrictlySorted(s, less) && s != []
    ensures x in s[1..] <==> x in s && x != s[0]
  {
    assert s == [s[0]] + s[1..];
  }

  // ----- Text

  predicate TextLess(a: string, b: string) {
    b != [] && (a == [] || a[0] < b[0] || (a[0] == b[0] && TextLess(a[1..], b[1..])))
  }

  lemma {:induction false} TextAsymmetric(a: string, b: string)
    ensures !(TextLess(a, b) && TextLess(b, a))
  {
    if a != [] && b != [] {
      TextAsymmetric(a[1..], b[1..]);
    }
  }

  lemma {:induction false} TextTotal(a: string, b: string)
    ensures a == b || TextLess(a, b) || TextLess(b, a)
  {
    if a != [] && b != [] {
      TextTotal(a[1..], b[1..]);
      assert a == [a[0]] + a[1..] && b == [b[0]] + b[1..];
    }
  }

  lemma {:induction false} TextTransitive(a: string, b: string, c: string)
    requires TextLess(a, b) && TextLess(b, c)
    ensures TextLess(a, c)
  {
    if a != [] && a[0] == b[0] && b[0] == c[0] {
      TextTransitive(a[1..], b[1..], c[1..]);
    }
  }

  /** The texts first differ at `k`, where `a` ends or has the lesser character. */
  ghost predicate LessAt(a: string, b: string, k: nat) {
    k <= |a| && k < |b| && a[..k] == b[..k] && (k == |a| || a[k] < b[k])
  }

  /** Texts are ordered by their first difference, a prefix before what it starts. */
  lemma {:induction false} TextLessAt(a: string, b: string)
    ensures TextLess(a, b) <==> exists k: nat :: LessAt(a, b, k)
  {
    forall k: nat | LessAt(a, b, k) && k > 0
      ensures a != [] && b != [] && a[0] == b[0]
    {
      assert a[..k][0] == a[0] && b[..k][0] == b[0];
    }
    if a != [] && b != [] && a[0] == b[0] {
      TextLessAt(a[1..], b[1..]);
      assert a == [a[0]] + a[1..] && b == [b[0]] + b[1..];
      if TextLess(a[1..], b[1..]) {
        var k: nat :| LessAt(a[1..], b[1..], k);
        assert a[..k + 1] == [a[0]] + a[1..][..k] && b[..k + 1] == [b[0]] + b[1..][..k];
        assert LessAt(a, b, k + 1);
      }
      if k: nat :| LessAt(a, b, k) {
        assert k > 0 && a[1..][..k - 1] == a[..k][1..] && b[1..][..k - 1] == b[..k][1..];
        assert LessAt(a[1..], b[1..], k - 1);
      }
    } else if b != [] && (a == [] || a[0] < b[0]) {
      assert LessAt(a, b, 0);
    }
  }

  lemma TextOrderIsAsymmetric()
    ensures Asymmetric(TextLess)
  {
    forall a, b
      ensures TextLess(a, b) ==> !TextLess(b, a)
    {
      TextAsymmetric(a, b);
    }
  }

  /** Inserts a text into its place, unless it is already there. */
  function InsertText(sorted: seq<string>, text: string): (r: seq<string>)
    requires StrictlySorted(sorted, TextLess)
    ensures StrictlySorted(r, TextLess)
    ensures forall x :: x in r <==> x in sorted || x == text
  {
    if sorted == [] then [text]
    else
      assert sorted == [sorted[0]] + sorted[1..];
      if text == sorted[0] then sorted
      else if TextLess(text, sorted[0]) then
        assert forall i :: 0 <= i < |sorted| ==> TextLess(text, sorted[i]) by {
          forall i | 0 < i < |sorted| ensures TextLess(text, sorted[i]) {
            TextTransitive(text, sorted[0], sorted[i]);
          }
        }
        [text] + sorted
      else
        TextTotal(text, sorted[0]);
        var rest := InsertText(sorted[1..], text);
        assert forall i :: 0 <= i < |rest| ==> TextLess(sorted[0], rest[i]) by {
          forall i | 0 <= i < |rest| ensures TextLess(sorted[0], rest[i]) {
            assert rest[i] in rest;
          }
        }
        [sorted[0]] + rest
  }

  /** Sorts texts and drops repeats. */
  function SortDedup(texts: seq<string>): (r: seq<string>)
    ensures StrictlySorted(r, TextLess)
    ensures forall x :: x in r <==> x in texts
  {
    if texts == [] then []
    else
      assert texts == texts[..|texts| - 1] + [texts[|texts| - 1]];
      InsertText(SortDedup(texts[..|texts| - 1]), texts[|texts| - 1])
  }
}
