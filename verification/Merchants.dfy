/**
 The cleaned merchant a rule is matched against (CleanMerchantName and normalizeCounterparty in
 src/internal/categorization/categorization.go).
 */
module Merchants {
  import opened Text

  /** strings.Fields: the maximal runs of non-space characters. */
  function Fields(s: string): seq<string> {
    if s == "" then []
    else
      var rest := Fields(s[..|s| - 1]);
      var c := s[|s| - 1];
      if IsSpace(c) then rest
      else if |s| >= 2 && !IsSpace(s[|s| - 2]) && rest != [] then rest[..|rest| - 1] + [rest[|rest| - 1] + [c]]
      else rest + [[c]]
  }

  function TrimMarks(token: string): string {
    if token != "" && token[0] in {'#', '*'} then TrimMarks(token[1..]) else token
  }

  /** isStoreNumber: digits only, behind any leading # and *. */
  predicate IsStoreNumber(token: string) {
    TrimMarks(token) != "" && forall c :: c in TrimMarks(token) ==> '0' <= c <= '9'
  }

  function DropStoreNumbers(fields: seq<string>): (kept: seq<string>)
    ensures kept <= fields
    ensures kept != [] ==> !IsStoreNumber(kept[|kept| - 1])
    ensures forall i :: |kept| <= i < |fields| ==> IsStoreNumber(fields[i])
  {
    if fields != [] && IsStoreNumber(fields[|fields| - 1]) then DropStoreNumbers(fields[..|fields| - 1]) else fields
  }

  function JoinWithSpaces(fields: seq<string>): string {
    if fields == [] then ""
    else if |fields| == 1 then fields[0]
    else JoinWithSpaces(fields[..|fields| - 1]) + " " + fields[|fields| - 1]
  }

  /** CleanMerchantName: the provider's merchant, else the counterparty without its trailing numbers. */
  function CleanMerchantName(merchant: string, counterparty: string): string {
    if TrimSpace(merchant) != "" then TrimSpace(merchant)
    else JoinWithSpaces(DropStoreNumbers(Fields(ToUpper(counterparty))))
  }

  predicate IsWord(w: string) {
    w != "" && forall c :: c in w ==> !IsSpace(c)
  }

  function Letters(words: seq<string>): string {
    if words == [] then "" else Letters(words[..|words| - 1]) + words[|words| - 1]
  }

  function WithoutSpaces(s: string): string {
    if s == "" then ""
    else WithoutSpaces(s[..|s| - 1]) + if IsSpace(s[|s| - 1]) then "" else [s[|s| - 1]]
  }

  /** One more character: skipped if a space, else it goes on with the last field or begins one. */
  lemma OneMoreCharacter(s: string, c: char)
    ensures var fields := Fields(s);
            Fields(s + [c]) ==
            if IsSpace(c) then fields
            else if s != "" && !IsSpace(s[|s| - 1]) && fields != [] then
              fields[..|fields| - 1] + [fields[|fields| - 1] + [c]]
            else fields + [[c]]
  {
    hide IsSpace;
    assert (s + [c])[..|s|] == s;
  }

  predicate AreWords(fields: seq<string>) {
    forall i :: 0 <= i < |fields| ==> IsWord(fields[i])
  }

  lemma WordGoesOn(fields: seq<string>, c: char)
    requires AreWords(fields) && fields != [] && !IsSpace(c)
    ensures var more := fields[..|fields| - 1] + [fields[|fields| - 1] + [c]];
            AreWords(more) && Letters(more) == Letters(fields) + [c]
  {
    hide IsSpace;
    var init, last := fields[..|fields| - 1], fields[|fields| - 1];
    assert (init + [last + [c]])[..|init|] == init;
    assert IsWord(last + [c]);
  }

  lemma WordBegins(fields: seq<string>, c: char)
    requires AreWords(fields) && !IsSpace(c)
    ensures AreWords(fields + [[c]]) && Letters(fields + [[c]]) == Letters(fields) + [c]
  {
    hide IsSpace;
    assert (fields + [[c]])[..|fields|] == fields;
  }

  /** The fields are words, and hold every letter of the text in its order. */
  lemma {:induction false} FieldsAreWords(s: string)
    ensures AreWords(Fields(s)) && Letters(Fields(s)) == WithoutSpaces(s)
  {
    hide IsSpace, Fields, Letters, AreWords;
    if s == "" {
      NoFields();
    } else {
      var front, c := s[..|s| - 1], s[|s| - 1];
      FieldsAreWords(front);
      OneMoreCharacter(front, c);
      assert front + [c] == s;
      if !IsSpace(c) {
        WordBegins(Fields(front), c);
        if Fields(front) != [] {
          WordGoesOn(Fields(front), c);
        }
      }
    }
  }

  lemma {:induction false} OneMoreField(s: string, w: string)
    requires IsWord(w)
    ensures Fields(s + " " + w) == Fields(s) + [w]
  {
    hide Fields;
    var m := |w| - 1;
    var c := w[m];
    assert c in w && w == w[..m] + [c];
    assert s + " " + w == (s + " " + w[..m]) + [c];
    OneMoreCharacter(s + " " + w[..m], c);
    if m == 0 {
      OneMoreCharacter(s, ' ');
      assert s + " " + w[..m] == s + [' '];
    } else {
      assert w[m - 1] in w;
      OneMoreField(s, w[..m]);
    }
  }

  lemma {:induction false} OneField(w: string)
    requires IsWord(w)
    ensures Fields(w) == [w]
  {
    hide Fields;
    var m := |w| - 1;
    var c := w[m];
    assert c in w && w == w[..m] + [c];
    OneMoreCharacter(w[..m], c);
    NoFields();
    if m > 0 {
      OneField(w[..m]);
      assert w[m - 1] in w;
    }
  }

  lemma NoFields()
    ensures Fields("") == [] && Letters([]) == "" && AreWords([])
  {
  }

  /** Words joined with spaces split into the same words again. */
  lemma {:induction false} JoinedWordsSplit(words: seq<string>)
    requires AreWords(words)
    ensures Fields(JoinWithSpaces(words)) == words
  {
    hide IsWord, Fields;
    if words == [] {
      NoFields();
    } else if |words| == 1 {
      OneField(words[0]);
    } else {
      var n := |words| - 1;
      JoinedWordsSplit(words[..n]);
      OneMoreField(JoinWithSpaces(words[..n]), words[n]);
    }
  }

  predicate IsDigitsBehindMarks(token: string, k: int) {
    && 0 <= k < |token| && (forall i :: 0 <= i < k ==> token[i] in {'#', '*'})
    && forall i :: k <= i < |token| ==> '0' <= token[i] <= '9'
  }

  lemma {:induction false} MarksAreTrimmed(token: string) returns (p: nat)
    ensures p <= |token| && TrimMarks(token) == token[p..] && (p < |token| ==> token[p] !in {'#', '*'})
    ensures forall i :: 0 <= i < p ==> token[i] in {'#', '*'}
  {
    p := 0;
    if token != "" && token[0] in {'#', '*'} {
      var rest := token[1..];
      var q := MarksAreTrimmed(rest);
      p := q + 1;
      assert token[p..] == rest[q..];
      forall i | 1 <= i < p ensures token[i] in {'#', '*'} {
        assert token[i] == rest[i - 1];
      }
    }
  }

  /** A store number is one digit or more behind any number of marks. */
  lemma StoreNumberIsDigitsBehindMarks(token: string)
    ensures IsStoreNumber(token) <==> exists k :: IsDigitsBehindMarks(token, k)
  {
    hide TrimMarks;
    var p := MarksAreTrimmed(token);
    forall i | p <= i < |token| ensures token[i] in token[p..] {
      assert token[i] == token[p..][i - p];
    }
    assert IsStoreNumber(token) ==> IsDigitsBehindMarks(token, p);
    if k :| IsDigitsBehindMarks(token, k) {
      assert token[k] !in {'#', '*'};
      assert p <= k;
    }
  }

  /** The provider's name without its outer spaces; else the counterparty in capitals, less its trailing numbers. */
  ghost predicate IsCleaned(name: string, merchant: string, counterparty: string) {
    if TrimSpace(merchant) != "" then name == TrimSpace(merchant)
    else
      var (words, all) := (Fields(name), Fields(ToUpper(counterparty)));
      && words <= all && (words != [] ==> !IsStoreNumber(words[|words| - 1]))
      && forall i :: |words| <= i < |all| ==> IsStoreNumber(all[i])
  }

  lemma CleanedName(merchant: string, counterparty: string)
    ensures IsCleaned(CleanMerchantName(merchant, counterparty), merchant, counterparty)
  {
    hide IsWord, IsStoreNumber, ToUpper, Fields, TrimSpace;
    var all := Fields(ToUpper(counterparty));
    FieldsAreWords(ToUpper(counterparty));
    JoinedWordsSplit(DropStoreNumbers(all));
  }

  /** normalizeCounterparty: the loop that drops the trailing numbers. */
  method NormalizeCounterparty(counterparty: string) returns (name: string)
    ensures name == JoinWithSpaces(DropStoreNumbers(Fields(ToUpper(counterparty))))
  {
    hide IsStoreNumber, Fields, ToUpper;
    var fields := Fields(ToUpper(counterparty));
    ghost var all := fields;
    while |fields| > 0 && IsStoreNumber(fields[|fields| - 1])
      invariant DropStoreNumbers(fields) == DropStoreNumbers(all)
    {
      fields := fields[..|fields| - 1];
    }
    name := JoinWithSpaces(fields);
  }

  /** CleanMerchantName. */
  method CleanMerchant(merchant: string, counterparty: string) returns (name: string)
    ensures name == CleanMerchantName(merchant, counterparty)
    ensures IsCleaned(name, merchant, counterparty)
  {
    hide IsCleaned, Fields, DropStoreNumbers, JoinWithSpaces, ToUpper, TrimSpace;
    CleanedName(merchant, counterparty);
    var m := TrimSpace(merchant);
    if m != "" {
      return m;
    }
    name := NormalizeCounterparty(counterparty);
  }
}
