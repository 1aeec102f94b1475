/** The `System.String` operations the helpers and parsers use:
    `ToLower`, `Replace(x, "")` and `IndexOf`. */
module Text {

  /** `char.ToLower` on ASCII letters; every other character is left as it is. */
  function LowerChar(c: char): char
  {
    if 'A' <= c <= 'Z' then (c as int + 32) as char else c
  }

  /** `s.ToLower()`: the string with each character lowered in place. */
  function ToLower(s: string): (r: string)
    ensures |r| == |s|
    ensures forall i :: 0 <= i < |s| ==> r[i] == LowerChar(s[i])
  {
    if s == [] then [] else [LowerChar(s[0])] + ToLower(s[1..])
  }

  /** Text without upper-case letters is its own lower-case form. */
  lemma LowerUnchanged(s: string)
    requires forall i :: 0 <= i < |s| ==> !('A' <= s[i] <= 'Z')
    ensures ToLower(s) == s
  {
  }

  lemma ToLowerConcat(a: string, b: string)
    ensures ToLower(a + b) == ToLower(a) + ToLower(b)
  {
    assert forall i :: 0 <= i < |a + b| ==> ToLower(a + b)[i] == (ToLower(a) + ToLower(b))[i];
  }

  /** The encoding names both tools accept. */
  predicate IsEncodingName(e: string)
  {
    e == "base64" || e == "hex"
  }

  /** `s.Replace(c1, "")....Replace(cn, "")` for the one-character strings in
      `cs`: the characters of `s` that are not in `cs`, in their order. */
  function Without(s: string, cs: set<char>): (r: string)
    ensures |r| <= |s|
  {
    if s == [] then [] else (if s[0] in cs then [] else [s[0]]) + Without(s[1..], cs)
  }

  /** Exactly the characters of `s` outside `cs` survive. */
  lemma {:induction false} WithoutMembers(s: string, cs: set<char>)
    ensures forall c :: c in Without(s, cs) <==> c in s && c !in cs
  {
    if s != [] {
      WithoutMembers(s[1..], cs);
      assert s == [s[0]] + s[1..];
    }
  }

  lemma {:induction false} WithoutConcat(a: string, b: string, cs: set<char>)
    ensures Without(a + b, cs) == Without(a, cs) + Without(b, cs)
  {
    if a == [] {
      assert a + b == b;
    } else {
      assert (a + b)[1..] == a[1..] + b;
      WithoutConcat(a[1..], b, cs);
    }
  }

  /** Removing one set of characters and then another removes their union. */
  lemma {:induction false} WithoutTwice(s: string, xs: set<char>, ys: set<char>)
    ensures Without(Without(s, xs), ys) == Without(s, xs + ys)
  {
    if s != [] {
      var head := if s[0] in xs then [] else [s[0]];
      WithoutConcat(head, Without(s[1..], xs), ys);
      WithoutTwice(s[1..], xs, ys);
    }
  }

  /** A removed character inserted anywhere leaves the result unchanged. */
  lemma WithoutInsert(a: string, b: string, c: char, cs: set<char>)
    requires c in cs
    ensures Without(a + [c] + b, cs) == Without(a + b, cs)
  {
    WithoutConcat(a + [c], b, cs);
    WithoutConcat(a, [c], cs);
    WithoutConcat(a, b, cs);
    assert Without([c], cs) == [];
  }

  /** A string that holds none of the characters to remove is left unchanged. */
  lemma {:induction false} WithoutNothing(s: string, cs: set<char>)
    requires forall c :: c in s ==> c !in cs
    ensures Without(s, cs) == s
  {
    if s != [] {
      WithoutNothing(s[1..], cs);
    }
  }

  /** `pat` occurs in `s` at index `j`. */
  predicate OccursAt(s: string, pat: string, j: nat)
  {
    j + |pat| <= |s| && s[j..j + |pat|] == pat
  }

  /** `s.IndexOf(pat, from)` with ordinal comparison: the first index at or
      after `from` where `pat` occurs, or -1 when there is none. */
  function IndexOf(s: string, pat: string, from: nat): (r: int)
    requires from <= |s|
    ensures r == -1 || (from <= r && OccursAt(s, pat, r))
    decreases |s| - from
  {
    if from + |pat| > |s| then -1
    else if s[from..from + |pat|] == pat then from
    else IndexOf(s, pat, from + 1)
  }

  /** No occurrence at or after `from` is skipped: the pattern occurs nowhere
      before the index found, and nowhere at all when the result is -1. */
  lemma {:induction false} IndexOfFirst(s: string, pat: string, from: nat, j: nat)
    requires from <= |s| && from <= j
    requires IndexOf(s, pat, from) == -1 || j < IndexOf(s, pat, from)
    ensures !OccursAt(s, pat, j)
    decreases |s| - from
  {
    if from + |pat| <= |s| && s[from..from + |pat|] != pat && from < j {
      IndexOfFirst(s, pat, from + 1, j);
    }
  }

  /** An occurrence at `k` with none in between is the one `IndexOf` finds. */
  lemma {:induction false} IndexOfFinds(s: string, pat: string, from: nat, k: nat)
    requires from <= k && OccursAt(s, pat, k)
    requires forall j :: from <= j < k ==> !OccursAt(s, pat, j)
    ensures IndexOf(s, pat, from) == k
    decreases k - from
  {
    if from < k {
      assert !OccursAt(s, pat, from);
      IndexOfFinds(s, pat, from + 1, k);
    }
  }
}
