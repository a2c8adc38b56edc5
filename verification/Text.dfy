/** The handful of string operations the source takes from Go's strings package, and the order of texts. */
module Text {

  predicate IsSpace(c: char) {
    c in {' ', '\t', '\n', '\U{0B}', '\U{0C}', '\r', '\U{85}', '\U{A0}'}
  }

  function TrimLeft(s: string): (t: string)
    ensures |t| <= |s| && t == s[|s| - |t|..]
    ensures t != "" ==> !IsSpace(t[0])
    ensures forall i :: 0 <= i < |s| - |t| ==> IsSpace(s[i])
  {
    if s != "" && IsSpace(s[0]) then TrimLeft(s[1..]) else s
  }

  function TrimRight(s: string): (t: string)
    ensures |t| <= |s| && t == s[..|t|]
    ensures t != "" ==> !IsSpace(t[|t| - 1])
    ensures forall i :: |t| <= i < |s| ==> IsSpace(s[i])
  {
    if s != "" && IsSpace(s[|s| - 1]) then TrimRight(s[..|s| - 1]) else s
  }

  function TrimSpace(s: string): string {
    TrimRight(TrimLeft(s))
  }

  lemma TrimIsIdempotent(s: string)
    ensures TrimSpace(TrimSpace(s)) == TrimSpace(s)
  {
    var t := TrimSpace(s);
    if t != "" {
      assert t[0] == TrimLeft(s)[0];
    }
  }

  function LowerChar(c: char): char {
    if 'A' <= c <= 'Z' then (c as int + 32) as char else c
  }

  function ToLower(s: string): (t: string)
    ensures |t| == |s| && forall i :: 0 <= i < |s| ==> t[i] == LowerChar(s[i])
  {
    seq(|s|, i requires 0 <= i < |s| => LowerChar(s[i]))
  }

  function UpperChar(c: char): char {
    if 'a' <= c <= 'z' then (c as int - 32) as char else c
  }

  function ToUpper(s: string): (t: string)
    ensures |t| == |s| && forall i :: 0 <= i < |s| ==> t[i] == UpperChar(s[i])
  {
    seq(|s|, i requires 0 <= i < |s| => UpperChar(s[i]))
  }

  predicate OccursAt(s: string, sub: string, k: int) {
    0 <= k <= |s| - |sub| && forall i :: 0 <= i < |sub| ==> s[k + i] == sub[i]
  }

  predicate Contains(s: string, sub: string) {
    exists k :: 0 <= k <= |s| && OccursAt(s, sub, k)
  }

  // ------------------------------------------- the same but for the case

  /** One letter, in either case, or one other character. */
  predicate SameLetter(a: char, b: char) {
    || a == b
    || ('A' <= a <= 'Z' && b as int == a as int + 32)
    || ('A' <= b <= 'Z' && a as int == b as int + 32)
  }

  predicate SameText(a: string, b: string) {
    |a| == |b| && forall i :: 0 <= i < |a| ==> SameLetter(a[i], b[i])
  }

  predicate ReadsAt(s: string, sub: string, k: int) {
    0 <= k <= |s| - |sub| && SameText(s[k..k + |sub|], sub)
  }

  /** sub stands somewhere in s, in any case. */
  ghost predicate Reads(s: string, sub: string) {
    exists k :: ReadsAt(s, sub, k)
  }

  lemma FoldingComparesLetters(a: char, b: char)
    ensures LowerChar(a) == LowerChar(b) <==> SameLetter(a, b)
    ensures UpperChar(a) == UpperChar(b) <==> SameLetter(a, b)
  {
  }

  /** Upper-cased texts are equal, and lower-cased ones too, exactly when the texts differ in case alone. */
  lemma FoldingComparesTexts(a: string, b: string)
    ensures ToLower(a) == ToLower(b) <==> SameText(a, b)
    ensures ToUpper(a) == ToUpper(b) <==> SameText(a, b)
  {
    hide LowerChar, UpperChar, SameLetter;
    if |a| == |b| {
      forall i | 0 <= i < |a| {
        FoldingComparesLetters(a[i], b[i]);
      }
      assert SameText(a, b) ==> ToLower(a) == ToLower(b) && ToUpper(a) == ToUpper(b);
      assert ToLower(a) == ToLower(b) ==>
          forall i :: 0 <= i < |a| ==> ToLower(a)[i] == ToLower(b)[i] && SameLetter(a[i], b[i]);
      assert ToUpper(a) == ToUpper(b) ==>
          forall i :: 0 <= i < |a| ==> ToUpper(a)[i] == ToUpper(b)[i] && SameLetter(a[i], b[i]);
    }
  }

  lemma OccursFolded(s: string, sub: string, k: int)
    ensures OccursAt(ToLower(s), ToLower(sub), k) <==> ReadsAt(s, sub, k)
  {
    hide LowerChar, SameLetter;
    if 0 <= k <= |s| - |sub| {
      var part := s[k..k + |sub|];
      forall i | 0 <= i < |sub|
        ensures ToLower(s)[k + i] == ToLower(sub)[i] <==> SameLetter(part[i], sub[i])
      {
        FoldingComparesLetters(s[k + i], sub[i]);
      }
    }
  }

  /** The case-insensitive substring test finds a text wherever it stands, in any case. */
  lemma ContainsReads(s: string, sub: string)
    ensures Contains(ToLower(s), ToLower(sub)) <==> Reads(s, sub)
  {
    hide SameText, ToLower;
    forall k ensures OccursAt(ToLower(s), ToLower(sub), k) <==> ReadsAt(s, sub, k) {
      OccursFolded(s, sub, k);
    }
    assert Contains(ToLower(s), ToLower(sub)) <==> exists k :: OccursAt(ToLower(s), ToLower(sub), k);
  }

  // ---------------------------------------------------------- text order

  /** a <= b as SQLite compares texts: character by character, a prefix first. */
  predicate TextAtMost(a: string, b: string) {
    a == [] || (b != [] && (a[0] < b[0] || (a[0] == b[0] && TextAtMost(a[1..], b[1..]))))
  }

  lemma {:induction false} TextOrderIsTotal(a: string, b: string)
    ensures TextAtMost(a, b) || TextAtMost(b, a)
    ensures TextAtMost(a, b) && TextAtMost(b, a) ==> a == b
  {
    if a != [] && b != [] && a[0] == b[0] {
      TextOrderIsTotal(a[1..], b[1..]);
      assert a == [a[0]] + a[1..] && b == [b[0]] + b[1..];
    }
  }

  lemma {:induction false} TextOrderIsTransitive(a: string, b: string, c: string)
    requires TextAtMost(a, b) && TextAtMost(b, c)
    ensures TextAtMost(a, c)
  {
    if a != [] && a[0] == b[0] == c[0] {
      TextOrderIsTransitive(a[1..], b[1..], c[1..]);
    }
  }

  /** Behind prefixes of one length, the prefixes decide unless they are equal. */
  lemma {:induction false} PrefixDecides(p: string, r: string, q: string, s: string)
    requires |p| == |q|
    ensures TextAtMost(p + r, q + s) <==> if p == q then TextAtMost(r, s) else TextAtMost(p, q)
  {
    if p == [] {
      assert p + r == r && q + s == s;
    } else {
      assert (p + r)[1..] == p[1..] + r && (q + s)[1..] == q[1..] + s;
      PrefixDecides(p[1..], r, q[1..], s);
      assert p == [p[0]] + p[1..] && q == [q[0]] + q[1..];
    }
  }
}
