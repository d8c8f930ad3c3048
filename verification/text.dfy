/**
 * Character classes and case mapping as Ruby 1.8 applies them to the
 * ASCII range, and the byte-wise order in which `Array#sort` arranges
 * Strings.
 */
module Text {

  /** Ruby's `\s`: space, tab, line feed, carriage return, form feed. */
  predicate IsSpace(c: char) {
    c == ' ' || c == '\t' || c == '\n' || c == '\r' || c == 12 as char
  }

  predicate IsUpper(c: char) {
    'A' <= c <= 'Z'
  }

  predicate IsLower(c: char) {
    'a' <= c <= 'z'
  }

  /** `downcase` of one character: only A-Z change. */
  function Lower(c: char): (r: char)
    ensures !IsUpper(r)
    ensures IsUpper(c) ==> IsLower(r) && r as int - 'a' as int == c as int - 'A' as int
    ensures !IsUpper(c) ==> r == c
    ensures IsSpace(r) <==> IsSpace(c)
    ensures r == '_' <==> c == '_'
  {
    if IsUpper(c) then (c as int + 32) as char else c
  }

  /** `upcase` of one character: only a-z change. */
  function Upper(c: char): (r: char)
    ensures !IsLower(r)
    ensures IsLower(c) ==> IsUpper(r) && r as int - 'A' as int == c as int - 'a' as int
    ensures !IsLower(c) ==> r == c
    ensures Lower(r) == Lower(c)
    ensures IsSpace(r) <==> IsSpace(c)
    ensures r == '_' <==> c == '_'
  {
    if IsLower(c) then (c as int - 32) as char else c
  }

  /** The two mappings undo each other on the letters they change. */
  lemma CaseInverse(c: char)
    ensures IsUpper(c) ==> Upper(Lower(c)) == c
    ensures IsLower(c) ==> Lower(Upper(c)) == c
  {
  }

  /** `s` contains no upper-case letter. */
  predicate NoUpper(s: string) {
    forall i :: 0 <= i < |s| ==> !IsUpper(s[i])
  }

  /** String#downcase. */
  function Downcase(s: string): (r: string)
    ensures |r| == |s|
    ensures forall i :: 0 <= i < |s| ==> r[i] == Lower(s[i])
    ensures NoUpper(r)
  {
    seq(|s|, i requires 0 <= i < |s| => Lower(s[i]))
  }

  /** String#capitalize: the first character upper-case, the rest lower-case. */
  function Capitalize(w: string): (r: string)
    ensures |r| == |w|
    ensures Downcase(r) == Downcase(w)
    ensures |w| > 0 ==> !IsLower(r[0]) && NoUpper(r[1..])
    ensures forall i :: 0 <= i < |r| ==> (IsSpace(r[i]) <==> IsSpace(w[i]))
    ensures forall i :: 0 <= i < |r| ==> (r[i] == '_' <==> w[i] == '_')
  {
    if |w| == 0 then w else [Upper(w[0])] + Downcase(w[1..])
  }
  /** A word already upper-case first and lower-case after is its own capitalization. */
  lemma CapitalizeKeeps(w: string)
    requires |w| > 0 && !IsLower(w[0]) && NoUpper(w[1..])
    ensures Capitalize(w) == w
  {
    assert Downcase(w[1..]) == w[1..];
  }


  lemma DowncaseAppend(a: string, b: string)
    ensures Downcase(a + b) == Downcase(a) + Downcase(b)
  {
  }

  /** `a <=> b` is not positive: the order Ruby sorts Strings in. */
  predicate LexLeq(a: string, b: string)
    decreases |a|
  {
    |a| == 0 || (|b| > 0 && (a[0] < b[0] || (a[0] == b[0] && LexLeq(a[1..], b[1..]))))
  }

  lemma {:induction false} LexLeqReflexive(a: string)
    ensures LexLeq(a, a)
    decreases |a|
  {
    if |a| > 0 {
      LexLeqReflexive(a[1..]);
    }
  }

  lemma {:induction false} LexLeqTotal(a: string, b: string)
    ensures LexLeq(a, b) || LexLeq(b, a)
    decreases |a|
  {
    if |a| > 0 && |b| > 0 && a[0] == b[0] {
      LexLeqTotal(a[1..], b[1..]);
    }
  }

  lemma {:induction false} LexLeqAntisymmetric(a: string, b: string)
    requires LexLeq(a, b) && LexLeq(b, a)
    ensures a == b
    decreases |a|
  {
    if |a| > 0 {
      LexLeqAntisymmetric(a[1..], b[1..]);
      assert a == [a[0]] + a[1..];
      assert b == [b[0]] + b[1..];
    }
  }

  lemma {:induction false} LexLeqTransitive(a: string, b: string, c: string)
    requires LexLeq(a, b) && LexLeq(b, c)
    ensures LexLeq(a, c)
    decreases |a|
  {
    if |a| > 0 && a[0] == b[0] && b[0] == c[0] {
      LexLeqTransitive(a[1..], b[1..], c[1..]);
    }
  }
}
