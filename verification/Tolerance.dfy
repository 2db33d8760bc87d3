/** Which spellings of a placeholder `demask` restores, in the characters of its regular
    expression, and which texts it leaves alone. */
module Tolerance {
  import opened Text
  import opened Scanner
  import opened Masking
  import opened Pipeline
  import opened Demask
  import opened RoundTrip
  import opened Lines
  import opened SharedMapping

  /** A placeholder as a language model may write it: an opening bracket and blanks or nothing,
      the label, a separator or none, the number, blanks and a closing bracket or nothing. */
  datatype Spelling = Spelling(open: string, tag: string, sep: string, n: nat, close: string) {
    function Text(): string { open + tag + sep + Decimal(n) + close }

    function Key(): string { tag + "_" + Decimal(n) }

    ghost predicate Legal(k: Classes) {
      && (open == "" || (open[0] in {'[', '(', '{', '<'} && forall i | 0 < i < |open| :: k.space(open[i])))
      && IsLabel(tag) && sep in {"", " ", "_", "-"}
      && (close == "" ||
            (close[|close| - 1] in {']', ')', '}', '>'} && forall i | 0 <= i < |close| - 1 :: k.space(close[i])))
    }

    function Cut(): Cuts {
      var l := |open| + |tag|;
      var d := l + |sep| + |Decimal(n)|;
      Cuts(0, |open|, l, l + |sep|, d, d + |close|)
    }
  }

  lemma SpellingParts(w: Spelling)
    ensures var s, c := w.Text(), w.Cut();
      && c.In(s) && c.end == |s| && s[..c.tag] == w.open && s[c.tag..c.sep] == w.tag && s[c.sep..c.num] == w.sep
      && s[c.num..c.close] == Decimal(w.n) && s[c.close..] == w.close
  {
    hide Decimal;
  }

  lemma CharsOf(s: string, i: nat, j: nat, t: string)
    requires i <= j <= |s| && s[i..j] == t
    ensures |t| == j - i && forall x | i <= x < j :: s[x] == t[x - i]
  {
    forall x | i <= x < j ensures s[x] == t[x - i] { assert s[i..j][x - i] == s[x]; }
  }

  lemma LabelInside(s: string, i: nat, j: nat)
    requires i <= j <= |s| && IsLabel(s[i..j])
    ensures IsLabelAt(s, i, j)
  {
    CharsOf(s, i, j, s[i..j]);
  }

  lemma SpellingIsWord(k: Classes, w: Spelling)
    requires w.Legal(k)
    ensures var s, c := w.Text(), w.Cut();
      IsWord(k, s, c) && c.end == |s| > 0 && c.Key(s) == w.Key()
  {
    SpellingParts(w);
    var s, c := w.Text(), w.Cut();
    hide Spelling.Text, Decimal;
    assert s[0..c.tag] == s[..c.tag] && s[c.close..|s|] == s[c.close..];
    CharsOf(s, 0, c.tag, w.open);
    LabelInside(s, c.tag, c.sep);
    CharsOf(s, c.sep, c.num, w.sep);
    CharsOf(s, c.num, c.close, Decimal(w.n));
    CharsOf(s, c.close, |s|, w.close);
    assert w.tag != "";
  }

  /** It is one match, from end to end. */
  lemma SpellingMatches(k: Classes, w: Spelling)
    requires w.Legal(k)
    ensures MatchAt(k, w.Text(), 0) == Some(w.Cut())
  {
    SpellingIsWord(k, w);
    hide IsWord, CutsAt, Spelling.Text, Cuts.Key;
    MatchMaximal(k, w.Text(), w.Cut());
    MatchOfCuts(k, w.Text());
  }

  lemma FirstPassSpelling(k: Classes, w: Spelling, tb: Table)
    requires w.Legal(k)
    ensures Pass1(k, w.Text(), 0, tb) ==
      if w.Key() in tb then DemaskResult(tb[w.Key()], 1, 0) else DemaskResult(w.Text(), 0, 1)
  {
    SpellingIsWord(k, w);
    SpellingMatches(k, w);
    hide MatchAt, IsWord, Spelling.Text, Spelling.Key, Spelling.Cut, Cuts.Key;
    var s, c := w.Text(), w.Cut();
    assert NextPos(k, s, 0) == |s| && s[0..|s|] == s;
    assert Pass1(k, s, |s|, tb) == DemaskResult("", 0, 0);
    assert c.start == 0;
    hide Pass1;
  }

  // ----- both passes -----

  /** None of the stored masks occurs in the text. */
  ghost predicate NoFormOccurs(text: string, m: Mapping) {
    forall i | 0 <= i < |Forms(m.entries)| :: Absent(text, Forms(m.entries)[i].masked)
  }

  lemma FirstPassDecides(k: Classes, text: string, m: Mapping)
    requires NoFormOccurs(Pass1(k, text, 0, TableOf(m.entries)).text, m)
    ensures Demasked(k, text, m) == Pass1(k, text, 0, TableOf(m.entries))
  {
    hide Pass1, TableOf, Forms, Absent;
    Pass2Nothing(Edited(Pass1(k, text, 0, TableOf(m.entries)).text, 0, 0), Forms(m.entries));
  }

  /** Every spelling of a known key is restored, and the restoration counted; a spelling of an
      unknown key stays, and is counted as unresolved. */
  lemma EverySpellingRestores(k: Classes, w: Spelling, m: Mapping)
    requires w.Legal(k)
    ensures var tb := TableOf(m.entries);
      && (w.Key() in tb && NoFormOccurs(tb[w.Key()], m) ==>
            Demasked(k, w.Text(), m) == DemaskResult(tb[w.Key()], 1, 0))
      && (w.Key() !in tb && NoFormOccurs(w.Text(), m) ==> Demasked(k, w.Text(), m) == DemaskResult(w.Text(), 0, 1))
  {
    hide Pass1, TableOf, NoFormOccurs, Demasked, Spelling.Text, Spelling.Key, Spelling.Legal;
    FirstPassSpelling(k, w, TableOf(m.entries));
    if NoFormOccurs(Pass1(k, w.Text(), 0, TableOf(m.entries)).text, m) { FirstPassDecides(k, w.Text(), m); }
  }

  /** Bracketed on both sides it is restored in any surroundings, which are treated as if each
      stood alone. */
  lemma BracketedRestoresAnywhere(k: Classes, a: string, w: Spelling, b: string, m: Mapping)
    requires w.Legal(k) && w.open != "" && w.close != "" && w.Key() in TableOf(m.entries)
    requires var tb := TableOf(m.entries);
      NoFormOccurs(Pass1(k, a, 0, tb).text + (tb[w.Key()] + Pass1(k, b, 0, tb).text), m)
    ensures var tb := TableOf(m.entries);
      Demasked(k, a + (w.Text() + b), m) ==
        Pass1(k, a, 0, tb).Then(DemaskResult(tb[w.Key()], 1, 0).Then(Pass1(k, b, 0, tb)))
  {
    SpellingIsWord(k, w);
    hide Pass1, TableOf, NoFormOccurs, Demasked, Spelling.Text, Spelling.Key, Spelling.Legal, IsWord, Cuts.Key;
    TolerantRestore(k, a, w.Text(), w.Cut(), b, TableOf(m.entries));
    FirstPassDecides(k, a + (w.Text() + b), m);
  }

  lemma {:induction false} NothingMatches(k: Classes, s: string, i: nat, tb: Table)
    requires i <= |s|
    requires (forall x | 0 <= x < |s| :: !Capital(s[x])) || (forall x | 0 <= x < |s| :: !k.digit(s[x]))
    ensures Pass1(k, s, i, tb) == DemaskResult(s[i..], 0, 0)
    decreases |s| - i
  {
    hide CutsAt, IsWord, Resolve, Pass1;
    if i < |s| {
      if MatchAt(k, s, i).Some? {
        MatchSound(k, s, i);
        WordHasBoth(k, s, CutsAt(k, s, i));
      }
      NothingMatches(k, s, i + 1, tb);
      Pass1Skips(k, s, i, tb);
      assert s[i..] == [s[i]] + s[i + 1..];
    } else {
      Pass1Ends(k, s, tb);
    }
  }

  lemma WordHasBoth(k: Classes, s: string, c: Cuts)
    requires IsWord(k, s, c)
    ensures c.tag < |s| && Capital(s[c.tag]) && c.num < |s| && k.digit(s[c.num])
  {}

  lemma Pass1Skips(k: Classes, s: string, i: nat, tb: Table)
    requires i < |s| && MatchAt(k, s, i).None?
    ensures Pass1(k, s, i, tb) == DemaskResult([s[i]], 0, 0).Then(Pass1(k, s, i + 1, tb))
  {
    hide MatchAt, Resolve;
  }

  lemma Pass1Ends(k: Classes, s: string, tb: Table)
    ensures Pass1(k, s, |s|, tb) == DemaskResult("", 0, 0)
  {}

  /** A text without a capital of the two alphabets, or without a digit, is copied unchanged. */
  lemma NothingToRestore(k: Classes, s: string, m: Mapping)
    requires (forall x | 0 <= x < |s| :: !Capital(s[x])) || (forall x | 0 <= x < |s| :: !k.digit(s[x]))
    requires NoFormOccurs(s, m)
    ensures Demasked(k, s, m) == DemaskResult(s, 0, 0)
  {
    hide Pass1, TableOf, NoFormOccurs, Demasked;
    NothingMatches(k, s, 0, TableOf(m.entries));
    assert s[0..] == s;
    FirstPassDecides(k, s, m);
  }

  // ----- the shipped labels -----

  /** The types of the shipped configuration, */
  const SHIPPED_TYPES: set<PdType> := {
    "FIO", "BIRTH_DATE", "BIRTH_PLACE", "PASSPORT", "CITIZENSHIP", "PASSPORT_ISSUER", "DIVISION_CODE",
    "PASSPORT_ISSUE_DATE", "DRIVER_LICENSE", "ADDRESS", "ADDR_COUNTRY", "ADDR_INDEX", "ADDR_REGION", "ADDR_CITY",
    "ADDR_STREET", "ADDR_HOUSE", "ADDR_FLAT", "EMAIL", "PHONE", "INN", "CARD_NUMBER", "CVV", "PIN", "CARD_HOLDER",
    "SNILS", "FOREIGN_PASSPORT", "OMS_POLICY", "BIRTH_CERT", "MILITARY_ID", "DATE", "ORG_INN", "UNCLASSIFIED_ID"}

  /** and their labels. */
  predicate ShippedLabels(m: Maskers) {
    && m.LabelOf("FIO") == "ФИО" && m.LabelOf("BIRTH_DATE") == "ДАТА_РОЖД"
    && m.LabelOf("BIRTH_PLACE") == "МЕСТО_РОЖД" && m.LabelOf("PASSPORT") == "ПАСПОРТ"
    && m.LabelOf("CITIZENSHIP") == "ГРАЖДАНСТВО" && m.LabelOf("PASSPORT_ISSUER") == "ОРГАН"
    && m.LabelOf("DIVISION_CODE") == "КОД_ПОДР" && m.LabelOf("PASSPORT_ISSUE_DATE") == "ДАТА_ВЫД"
    && m.LabelOf("DRIVER_LICENSE") == "ВУ" && m.LabelOf("ADDRESS") == "АДРЕС"
    && m.LabelOf("ADDR_COUNTRY") == "СТРАНА" && m.LabelOf("ADDR_INDEX") == "ИНДЕКС"
    && m.LabelOf("ADDR_REGION") == "РЕГИОН" && m.LabelOf("ADDR_CITY") == "ГОРОД"
    && m.LabelOf("ADDR_STREET") == "УЛИЦА" && m.LabelOf("ADDR_HOUSE") == "ДОМ"
    && m.LabelOf("ADDR_FLAT") == "КВ" && m.LabelOf("EMAIL") == "EMAIL"
    && m.LabelOf("PHONE") == "ТЕЛЕФОН" && m.LabelOf("INN") == "ИНН"
    && m.LabelOf("CARD_NUMBER") == "КАРТА" && m.LabelOf("CVV") == "CVV"
    && m.LabelOf("PIN") == "ПИН" && m.LabelOf("CARD_HOLDER") == "ДЕРЖАТЕЛЬ"
    && m.LabelOf("SNILS") == "СНИЛС" && m.LabelOf("FOREIGN_PASSPORT") == "ЗАГРАН"
    && m.LabelOf("OMS_POLICY") == "ПОЛИС" && m.LabelOf("BIRTH_CERT") == "СВИД_РОЖД"
    && m.LabelOf("MILITARY_ID") == "ВОЕН_БИЛЕТ" && m.LabelOf("DATE") == "ДАТА"
    && m.LabelOf("ORG_INN") == "ИНН_ОРГ" && m.LabelOf("UNCLASSIFIED_ID") == "ID"
  }

  predicate Capitals(s: string) { s != "" && forall i | 0 <= i < |s| :: Capital(s[i]) }

  lemma WordLabel(s: string)
    requires Capitals(s)
    ensures IsLabel(s)
  {}

  lemma TwoWordLabel(s: string, t: string)
    requires Capitals(s) && Capitals(t)
    ensures IsLabel(s + "_" + t)
  {}

  lemma ShippedWords1()
    ensures Capitals("ФИО") && Capitals("ПАСПОРТ") && Capitals("ГРАЖДАНСТВО") && Capitals("ОРГАН")
    ensures Capitals("ВУ") && Capitals("АДРЕС") && Capitals("СТРАНА") && Capitals("ИНДЕКС")
    ensures Capitals("РЕГИОН")
  {}

  lemma ShippedWords2()
    ensures Capitals("ГОРОД") && Capitals("УЛИЦА") && Capitals("ДОМ") && Capitals("КВ")
    ensures Capitals("EMAIL") && Capitals("ТЕЛЕФОН") && Capitals("ИНН") && Capitals("КАРТА")
    ensures Capitals("CVV")
  {}

  lemma ShippedWords3()
    ensures Capitals("ПИН") && Capitals("ДЕРЖАТЕЛЬ") && Capitals("СНИЛС") && Capitals("ЗАГРАН")
    ensures Capitals("ПОЛИС") && Capitals("ДАТА") && Capitals("ID")
  {}

  lemma ShippedWords4()
    ensures Capitals("БИЛЕТ") && Capitals("ВОЕН") && Capitals("ВЫД") && Capitals("ДАТА")
    ensures Capitals("ИНН") && Capitals("КОД") && Capitals("МЕСТО") && Capitals("ОРГ")
    ensures Capitals("ПОДР") && Capitals("РОЖД") && Capitals("СВИД")
  {}

  lemma ShippedPairs()
    ensures IsLabel("ДАТА_РОЖД")
    ensures IsLabel("МЕСТО_РОЖД")
    ensures IsLabel("КОД_ПОДР")
    ensures IsLabel("ДАТА_ВЫД")
    ensures IsLabel("СВИД_РОЖД")
    ensures IsLabel("ВОЕН_БИЛЕТ")
    ensures IsLabel("ИНН_ОРГ")
  {
    ShippedWords4();
    hide IsLabel, Capitals;
    TwoWordLabel("ДАТА", "РОЖД");
    assert "ДАТА" + "_" + "РОЖД" == "ДАТА_РОЖД";
    TwoWordLabel("МЕСТО", "РОЖД");
    assert "МЕСТО" + "_" + "РОЖД" == "МЕСТО_РОЖД";
    TwoWordLabel("КОД", "ПОДР");
    assert "КОД" + "_" + "ПОДР" == "КОД_ПОДР";
    TwoWordLabel("ДАТА", "ВЫД");
    assert "ДАТА" + "_" + "ВЫД" == "ДАТА_ВЫД";
    TwoWordLabel("СВИД", "РОЖД");
    assert "СВИД" + "_" + "РОЖД" == "СВИД_РОЖД";
    TwoWordLabel("ВОЕН", "БИЛЕТ");
    assert "ВОЕН" + "_" + "БИЛЕТ" == "ВОЕН_БИЛЕТ";
    TwoWordLabel("ИНН", "ОРГ");
    assert "ИНН" + "_" + "ОРГ" == "ИНН_ОРГ";
  }

  /** With the shipped labels and placeholder format every policy over the shipped types is one
      that the scanner can read back. */
  lemma ShippedScannable(u: Setup, p: Policy)
    requires u.maskers.format == "[{label}_{n}]" && ShippedLabels(u.maskers) && p.types <= SHIPPED_TYPES
    ensures Scannable(u, p)
  {
    hide IsLabel, Maskers.LabelOf, Capitals;
    ShippedWords1();
    ShippedWords2();
    ShippedWords3();
    ShippedPairs();
    forall t <- p.types ensures IsLabel(u.maskers.LabelOf(t)) {
      var l := u.maskers.LabelOf(t);
      assert t in SHIPPED_TYPES;
      if Capitals(l) { WordLabel(l); }
    }
  }
}
