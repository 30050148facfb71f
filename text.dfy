/**
 * String helpers shared by the query layer: substring search (what a
 * `LIKE '%term%'` condition selects when the term holds no wildcard) and
 * the lexicographic order used to sort text columns.
 */
module Text {

  /** `term` occurs in `s` starting at index `i`. */
  ghost predicate OccursAt(term: string, s: string, i: nat) {
    i + |term| <= |s| && s[i..i + |term|] == term
  }

  /** `term` occurs somewhere in `s`. */
  ghost predicate IsSubstring(term: string, s: string) {
    exists i: nat :: OccursAt(term, s, i)
  }

  predicate StartsWith(prefix: string, s: string) {
    |prefix| <= |s| && s[..|prefix|] == prefix
  }

  /** Executable substring test. */
  function Contains(term: string, s: string): bool
    decreases |s|
  {
    StartsWith(term, s) || (s != [] && Contains(term, s[1..]))
  }

  /** What the executable test finds is a substring. */
  lemma {:induction false} ContainsSound(term: string, s: string)
    requires Contains(term, s)
    ensures IsSubstring(term, s)
    decreases |s|
  {
    if StartsWith(term, s) {
      assert OccursAt(term, s, 0);
    } else {
      ContainsSound(term, s[1..]);
      var i: nat :| OccursAt(term, s[1..], i);
      assert s[1..][i..i + |term|] == s[i + 1..i + 1 + |term|];
      assert OccursAt(term, s, i + 1);
    }
  }

  /** An occurrence at any position is found by the executable test. */
  lemma {:induction false} ContainsComplete(term: string, s: string, i: nat)
    requires OccursAt(term, s, i)
    ensures Contains(term, s)
    decreases i
  {
    if i == 0 {
      assert StartsWith(term, s);
    } else {
      assert s[1..][i - 1..i - 1 + |term|] == s[i..i + |term|];
      ContainsComplete(term, s[1..], i - 1);
    }
  }

  /** The executable test decides exactly the substring relation. */
  lemma ContainsIsSubstring(term: string, s: string)
    ensures Contains(term, s) <==> IsSubstring(term, s)
  {
    if Contains(term, s) {
      ContainsSound(term, s);
    }
    if IsSubstring(term, s) {
      var i: nat :| OccursAt(term, s, i);
      ContainsComplete(term, s, i);
    }
  }

  /** Lexicographic order on code points: a prefix comes first. */
  predicate LexLe(a: string, b: string)
    decreases |a|
  {
    a == [] || (b != [] && (a[0] < b[0] || (a[0] == b[0] && LexLe(a[1..], b[1..]))))
  }

  lemma {:induction false} LexLeTotal(a: string, b: string)
    ensures LexLe(a, b) || LexLe(b, a)
    decreases |a|
  {
    if a != [] && b != [] && a[0] == b[0] {
      LexLeTotal(a[1..], b[1..]);
    }
  }

  lemma {:induction false} LexLeTransitive(a: string, b: string, c: string)
    requires LexLe(a, b) && LexLe(b, c)
    ensures LexLe(a, c)
    decreases |a|
  {
    if a != [] && a[0] == b[0] && b[0] == c[0] {
      LexLeTransitive(a[1..], b[1..], c[1..]);
    }
  }

  /** Two texts that each may precede the other are equal. */
  lemma {:induction false} LexLeAntisymmetric(a: string, b: string)
    requires LexLe(a, b) && LexLe(b, a)
    ensures a == b
    decreases |a|
  {
    if a != [] {
      LexLeAntisymmetric(a[1..], b[1..]);
      assert a == [a[0]] + a[1..] && b == [b[0]] + b[1..];
    }
  }
}
