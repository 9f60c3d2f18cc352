/**
 * Counting parentheses in the expression buffer (App.js, countOpenParentheses
 * and countCloseParentheses), and the "never over-closed" property that the
 * close-parenthesis key guards.
 */
module Parentheses {

  /** Number of occurrences of `c` in `s`, as a regular-expression global
      match of a single character followed by `.length` computes it. */
  function Count(c: char, s: string): (n: nat)
    ensures n <= |s|
    ensures n == 0 <==> c !in s
  {
    if s == [] then 0
    else (if s[0] == c then 1 else 0) + Count(c, s[1..])
  }

  /** Number of `(` characters in `s`. */
  function CountOpen(s: string): (n: nat)
    ensures n == multiset(s)['(']
  {
    CountIsMultiplicity('(', s);
    Count('(', s)
  }

  /** Number of `)` characters in `s`. */
  function CountClose(s: string): (n: nat)
    ensures n == multiset(s)[')']
  {
    CountIsMultiplicity(')', s);
    Count(')', s)
  }

  /** `Count` agrees with the multiplicity of `c` in the multiset of `s`. */
  lemma {:induction false} CountIsMultiplicity(c: char, s: string)
    ensures Count(c, s) == multiset(s)[c]
  {
    if s != [] {
      CountIsMultiplicity(c, s[1..]);
      assert s == [s[0]] + s[1..];
      assert multiset(s) == multiset([s[0]]) + multiset(s[1..]);
    }
  }

  /** Counting distributes over concatenation. */
  lemma {:induction false} CountAppend(c: char, a: string, b: string)
    ensures Count(c, a + b) == Count(c, a) + Count(c, b)
  {
    if a == [] {
      assert a + b == b;
    } else {
      CountAppend(c, a[1..], b);
      assert (a + b)[1..] == a[1..] + b;
    }
  }

  /** A one-character string holds `c` once if it is `c`, and otherwise not. */
  lemma CountSingle(c: char, x: char)
    ensures Count(c, [x]) == if x == c then 1 else 0
  {
    assert [x][1..] == [];
  }

  /** No prefix of `s` has more `)` than `(`: the whole string does not, and
      neither does the string without its last character. */
  predicate PrefixBalanced(s: string)
    decreases |s|
  {
    s == [] || (CountClose(s) <= CountOpen(s) && PrefixBalanced(s[..|s| - 1]))
  }

  /** `PrefixBalanced` says of every prefix that it has no more `)` than `(`. */
  lemma {:induction false} PrefixBalancedMeans(s: string)
    ensures PrefixBalanced(s)
            <==> forall k :: 0 <= k <= |s| ==> CountClose(s[..k]) <= CountOpen(s[..k])
    decreases |s|
  {
    assert s[..|s|] == s;
    if s != [] {
      var d := s[..|s| - 1];
      PrefixBalancedMeans(d);
      assert forall k :: 0 <= k <= |d| ==> d[..k] == s[..k];
    }
  }

  /** A string without `)` is never over-closed. */
  lemma {:induction false} NoCloseBalanced(s: string)
    requires ')' !in s
    ensures PrefixBalanced(s)
    decreases |s|
  {
    if s != [] {
      NoCloseBalanced(s[..|s| - 1]);
    }
  }

  /** Concatenating two strings that are never over-closed gives one that is
      never over-closed. */
  lemma {:induction false} PrefixBalancedAppend(a: string, b: string)
    requires PrefixBalanced(a) && PrefixBalanced(b)
    ensures PrefixBalanced(a + b)
    decreases |b|
  {
    if b == [] {
      assert a + b == a;
    } else {
      var d := b[..|b| - 1];
      PrefixBalancedAppend(a, d);
      assert (a + b)[..|a + b| - 1] == a + d;
      CountAppend('(', a, b);
      CountAppend(')', a, b);
      if a != [] {
        assert CountClose(a) <= CountOpen(a);
      }
    }
  }

  /** Appending text without `)` keeps a string never over-closed. */
  lemma AppendNoClose(a: string, b: string)
    requires PrefixBalanced(a) && ')' !in b
    ensures PrefixBalanced(a + b)
  {
    NoCloseBalanced(b);
    PrefixBalancedAppend(a, b);
  }

  /** Appending `)` to a string with more `(` than `)` keeps it never
      over-closed. */
  lemma PrefixBalancedClose(a: string)
    requires PrefixBalanced(a)
    requires CountClose(a) < CountOpen(a)
    ensures PrefixBalanced(a + ")")
  {
    assert (a + ")")[..|a + ")"| - 1] == a;
    CountAppend('(', a, ")");
    CountAppend(')', a, ")");
    CountSingle('(', ')');
    CountSingle(')', ')');
  }

  /** Dropping the last character keeps a string never over-closed. */
  lemma PrefixBalancedDropLast(a: string)
    requires PrefixBalanced(a)
    requires a != []
    ensures PrefixBalanced(a[..|a| - 1])
  {
  }
}
