/** The string operations the browser code leans on, over `seq<char>`:
    `toLowerCase` (ASCII letters), `startsWith`, `includes`/`indexOf`,
    `endsWith`, `split` on one character, `join`, `replace` of the first
    occurrence, and decimal rendering of naturals. */
module Strings {

  predicate IsUpper(c: char) { 'A' <= c <= 'Z' }

  function LowerChar(c: char): (r: char)
    ensures !IsUpper(r)
    ensures IsUpper(c) ==> 'a' <= r <= 'z'
    ensures !IsUpper(c) ==> r == c
  {
    if IsUpper(c) then (c as int - 'A' as int + 'a' as int) as char else c
  }

  function UpperChar(c: char): char {
    if 'a' <= c <= 'z' then (c as int - 'a' as int + 'A' as int) as char else c
  }

  /** `toLowerCase`, restricted to the ASCII letters. */
  function Lower(s: string): (r: string)
    ensures |r| == |s|
    ensures forall i :: 0 <= i < |s| ==> r[i] == LowerChar(s[i])
  {
    seq(|s|, i requires 0 <= i < |s| => LowerChar(s[i]))
  }

  lemma LowerConcat(a: string, b: string)
    ensures Lower(a + b) == Lower(a) + Lower(b)
  {
  }

  lemma LowerIdempotent(s: string)
    ensures Lower(Lower(s)) == Lower(s)
  {
  }

  /** `s.startsWith(p)`. */
  predicate StartsWith(s: string, p: string) {
    |p| <= |s| && s[..|p|] == p
  }

  /** `s.endsWith(p)`. */
  predicate EndsWith(s: string, p: string) {
    |p| <= |s| && s[|s| - |p|..] == p
  }

  ghost predicate OccursAt(s: string, p: string, i: int) {
    0 <= i && i + |p| <= |s| && s[i..i + |p|] == p
  }

  /** The first position at or after `from` where `p` occurs in `s`, or -1. */
  function IndexOfFrom(s: string, p: string, from: nat): (r: int)
    requires from <= |s|
    ensures r == -1 || (from <= r && OccursAt(s, p, r))
    ensures r == -1 ==> forall k :: from <= k <= |s| ==> !OccursAt(s, p, k)
    ensures r >= 0 ==> forall k :: from <= k < r ==> !OccursAt(s, p, k)
    decreases |s| - from
  {
    if from + |p| <= |s| && s[from..from + |p|] == p then from
    else if from + |p| >= |s| then
      assert forall k :: from < k <= |s| ==> !OccursAt(s, p, k);
      -1
    else IndexOfFrom(s, p, from + 1)
  }

  /** `s.indexOf(p)`. */
  function IndexOf(s: string, p: string): (r: int)
    ensures r == -1 || OccursAt(s, p, r)
    ensures r == -1 <==> forall k :: 0 <= k <= |s| ==> !OccursAt(s, p, k)
    ensures r >= 0 ==> forall k :: 0 <= k < r ==> !OccursAt(s, p, k)
  {
    IndexOfFrom(s, p, 0)
  }

  /** `s.includes(p)`. */
  predicate Contains(s: string, p: string) {
    IndexOf(s, p) >= 0
  }

  lemma ContainsAt(s: string, p: string, i: int)
    requires OccursAt(s, p, i)
    ensures Contains(s, p)
  {
  }

  lemma ContainsWitness(s: string, p: string) returns (i: nat)
    requires Contains(s, p)
    ensures OccursAt(s, p, i)
  {
    i := IndexOf(s, p);
  }

  lemma StartsWithContains(s: string, p: string)
    requires StartsWith(s, p)
    ensures Contains(s, p)
  {
    ContainsAt(s, p, 0);
  }

  /** Substring containment is transitive. */
  lemma ContainsTransitive(a: string, b: string, c: string)
    requires Contains(a, b) && Contains(b, c)
    ensures Contains(a, c)
  {
    var i := ContainsWitness(a, b);
    var j := ContainsWitness(b, c);
    assert b == a[i..i + |b|];
    var x, y := a[i + j..i + j + |c|], b[j..j + |c|];
    forall k | 0 <= k < |c|
      ensures x[k] == y[k]
    {
      assert b[j + k] == a[i..i + |b|][j + k];
    }
    assert x == y;
    ContainsAt(a, c, i + j);
  }

  /** Appending text keeps every occurrence. */
  lemma ContainsAppend(a: string, b: string, p: string)
    requires Contains(a, p)
    ensures Contains(a + b, p)
  {
    var i := ContainsWitness(a, p);
    assert (a + b)[i..i + |p|] == a[i..i + |p|];
    ContainsAt(a + b, p, i);
  }

  /** Every string contains the empty string (JavaScript agrees). */
  lemma ContainsEmpty(s: string)
    ensures Contains(s, "")
  {
    ContainsAt(s, "", 0);
  }

  /** `ws.join(sep)`. */
  function Join(ws: seq<string>, sep: string): string {
    if |ws| == 0 then ""
    else if |ws| == 1 then ws[0]
    else ws[0] + sep + Join(ws[1..], sep)
  }

  /** A joined list starts with its first element ... */
  lemma JoinStartsWith(ws: seq<string>, sep: string)
    requires |ws| >= 1
    ensures StartsWith(Join(ws, sep), ws[0])
  {
    if |ws| > 1 {
      assert Join(ws, sep)[..|ws[0]|] == ws[0];
    }
  }

  /** ... and contains each of them. */
  lemma {:induction false} JoinContains(ws: seq<string>, sep: string, i: nat)
    requires i < |ws|
    ensures Contains(Join(ws, sep), ws[i])
  {
    var j := Join(ws, sep);
    if i == 0 {
      JoinStartsWith(ws, sep);
      StartsWithContains(j, ws[0]);
    } else {
      JoinContains(ws[1..], sep, i - 1);
      var rest := Join(ws[1..], sep);
      assert j == ws[0] + sep + rest;
      assert j[|ws[0] + sep|..] == rest;
      ContainsAt(j, rest, |ws[0] + sep|);
      ContainsTransitive(j, rest, ws[i]);
    }
  }

  /** Lower-casing keeps every occurrence. */
  lemma LowerContains(a: string, b: string)
    requires Contains(a, b)
    ensures Contains(Lower(a), Lower(b))
  {
    var i := ContainsWitness(a, b);
    assert Lower(a)[i..i + |b|] == Lower(b);
    ContainsAt(Lower(a), Lower(b), i);
  }

  lemma LowerStartsWith(a: string, b: string)
    requires StartsWith(a, b)
    ensures StartsWith(Lower(a), Lower(b))
  {
    assert Lower(a)[..|b|] == Lower(b);
  }

  /** `s.split(c)` for a one-character separator: the pieces between the
      separators, always at least one (possibly empty) piece. */
  function Split(s: string, c: char): (r: seq<string>)
    ensures |r| >= 1
    ensures forall w :: w in r ==> c !in w
    decreases |s|
  {
    var i := IndexOf(s, [c]);
    if i < 0 then
      assert forall k :: 0 <= k < |s| ==> s[k] != c by {
        forall k | 0 <= k < |s| ensures s[k] != c {
          assert !OccursAt(s, [c], k);
          assert s[k..k + 1] == [s[k]];
        }
      }
      [s]
    else
      assert s[i..i + 1] == [c];
      assert forall k :: 0 <= k < i ==> s[k] != c by {
        forall k | 0 <= k < i ensures s[k] != c {
          assert !OccursAt(s, [c], k);
          assert s[k..k + 1] == [s[k]];
        }
      }
      [s[..i]] + Split(s[i + 1..], c)
  }

  /** Joining the pieces of a split with the separator gives the text back. */
  lemma {:induction false} SplitJoin(s: string, c: char)
    ensures Join(Split(s, c), [c]) == s
    decreases |s|
  {
    var i := IndexOf(s, [c]);
    if i >= 0 {
      SplitUnfold(s, c, i);
      SplitJoin(s[i + 1..], c);
      assert s[i..i + 1] == [c];
      assert s == s[..i] + [c] + s[i + 1..];
    }
  }

  /** Each piece of a split is a substring of the split text. */
  lemma {:induction false} SplitPiecesOccur(s: string, c: char)
    ensures forall w :: w in Split(s, c) ==> Contains(s, w)
    decreases |s|
  {
    var i := IndexOf(s, [c]);
    if i < 0 {
      assert Split(s, c) == [s];
      ContainsAt(s, s, 0);
    } else {
      var tail := s[i + 1..];
      var rest := Split(tail, c);
      SplitUnfold(s, c, i);
      ContainsAt(s, s[..i], 0);
      ContainsAt(s, tail, i + 1);
      SplitPiecesOccur(tail, c);
      forall w | w in rest ensures Contains(s, w) {
        ContainsTransitive(s, tail, w);
      }
    }
  }

  /** Text without the separator splits into itself alone. */
  lemma SplitNoSeparator(s: string, c: char)
    requires c !in s
    ensures Split(s, c) == [s]
  {
    forall k | 0 <= k <= |s| ensures !OccursAt(s, [c], k) {
      assert k < |s| ==> s[k..k + 1] == [s[k]];
    }
  }

  /** The first occurrence comes no later than any known one. */
  lemma IndexOfAtMost(s: string, p: string, j: int)
    requires OccursAt(s, p, j)
    ensures 0 <= IndexOf(s, p) <= j
  {
  }

  /** Past the first separator, a split is the first piece followed by the
      split of the rest. */
  lemma SplitUnfold(s: string, c: char, i: nat)
    requires i == IndexOf(s, [c])
    ensures Split(s, c) == [s[..i]] + Split(s[i + 1..], c)
  {
  }

  /** The last piece of a split is the text after the last separator. */
  lemma {:induction false} SplitLast(a: string, c: char, b: string)
    requires c !in b
    ensures var r := Split(a + [c] + b, c); r[|r| - 1] == b
    decreases |a|
  {
    var s := a + [c] + b;
    assert OccursAt(s, [c], |a|) by { assert s[|a|..|a| + 1] == [c]; }
    IndexOfAtMost(s, [c], |a|);
    var i := IndexOf(s, [c]);
    SplitUnfold(s, c, i);
    if i == |a| {
      assert s[i + 1..] == b;
      SplitNoSeparator(b, c);
    } else {
      DropPastSeparator(a, c, b, i);
      SplitLast(a[i + 1..], c, b);
    }
  }

  lemma DropPastSeparator(a: string, c: char, b: string, i: nat)
    requires i < |a|
    ensures (a + [c] + b)[i + 1..] == a[i + 1..] + [c] + b
  {
  }

  /** `s.replace(p, r)` with a string pattern: only the first occurrence. */
  function ReplaceFirst(s: string, p: string, rep: string): (r: string)
    ensures !Contains(s, p) ==> r == s
    ensures Contains(s, p) ==>
      exists i :: OccursAt(s, p, i) && (forall k :: 0 <= k < i ==> !OccursAt(s, p, k))
        && r == s[..i] + rep + s[i + |p|..]
  {
    var i := IndexOf(s, p);
    if i < 0 then s else s[..i] + rep + s[i + |p|..]
  }

  /** Replace `p` when it ends `s` (a regular expression anchored with `$`). */
  function ReplaceSuffix(s: string, p: string, rep: string): (r: string)
    ensures EndsWith(s, p) ==> r == s[..|s| - |p|] + rep && EndsWith(r, rep)
    ensures !EndsWith(s, p) ==> r == s
  {
    if EndsWith(s, p) then s[..|s| - |p|] + rep else s
  }

  function DigitChar(d: nat): (c: char)
    requires d < 10
  {
    ('0' as int + d) as char
  }

  predicate IsDigit(c: char) { '0' <= c <= '9' }

  function DigitValue(c: char): nat
    requires IsDigit(c)
  {
    c as int - '0' as int
  }

  /** Decimal rendering of a natural, as in a template literal. */
  function NatToString(n: nat): (r: string)
    ensures |r| >= 1
    ensures forall c :: c in r ==> IsDigit(c)
    ensures |r| > 1 ==> r[0] != '0'
  {
    if n < 10 then [DigitChar(n)]
    else NatToString(n / 10) + [DigitChar(n % 10)]
  }

  /** Reading a string of digits back as a number. */
  function ParseDigits(s: string): nat
    requires forall c :: c in s ==> IsDigit(c)
  {
    if |s| == 0 then 0
    else ParseDigits(s[..|s| - 1]) * 10 + DigitValue(s[|s| - 1])
  }

  /** Decimal rendering is faithful: parsing it gives the number back, so two
      different numbers never render to the same text. */
  lemma {:induction false} NatToStringRoundTrip(n: nat)
    ensures ParseDigits(NatToString(n)) == n
  {
    var r := NatToString(n);
    if n >= 10 {
      NatToStringRoundTrip(n / 10);
      assert r[..|r| - 1] == NatToString(n / 10);
    }
  }

  lemma NatToStringInjective(a: nat, b: nat)
    requires NatToString(a) == NatToString(b)
    ensures a == b
  {
    NatToStringRoundTrip(a);
    NatToStringRoundTrip(b);
  }
}
