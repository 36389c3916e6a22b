/**
 * Worked queries over a four-word list that is already lower-case and in
 * NFC form, so that normalisation and lower-casing leave every word and
 * needle as it is.
 */
module Scenarios {
  import opened Wrappers
  import opened PyText
  import opened Words
  import opened QueryEngine

  /**
   * A library whose normalisation and lower-casing leave the four words and
   * the needles below unchanged, as Python's do: they are already lower-case
   * and in NFC form.
   */
  ghost predicate FixesWords(host: Host) {
    forall s | s in ["котка", "кот", "кіт", "акт", "т"] :: host.nfc(s) == s && host.lower(s) == s
  }

  function Lines(): seq<string> {
    ["котка", "кот", "кіт", "акт"]
  }

  /** The file yields one record per word, in file order. */
  lemma ScenarioLoad(host: Host)
    requires FixesWords(host)
    ensures Loaded(host, Lines()) ==
      [WordRecord("котка", "котка", 5), WordRecord("кот", "кот", 3),
       WordRecord("кіт", "кіт", 3), WordRecord("акт", "акт", 3)]
  {
    var ls := Lines();
    PlainWord(host, "котка");
    PlainWord(host, "кот");
    PlainWord(host, "кіт");
    PlainWord(host, "акт");
    assert ls[1..] == ["кот", "кіт", "акт"] && ls[2..] == ["кіт", "акт"] && ls[3..] == ["акт"] && ls[4..] == [];
    assert Loaded(host, ls[3..]) == [WordRecord("акт", "акт", 3)];
    assert Loaded(host, ls[2..]) == [WordRecord("кіт", "кіт", 3), WordRecord("акт", "акт", 3)];
  }

  /** A word with no whitespace at its ends is its own line word. */
  lemma PlainWord(host: Host, w: string)
    requires FixesWords(host)
    requires w in ["котка", "кот", "кіт", "акт"]
    requires w != "" && !IsSpace(w[0]) && !IsSpace(w[|w| - 1])
    ensures LineWord(host, w) == w
  {
    assert TrimStart(w) == w;
    assert TrimEnd(w) == w;
  }

  /** What the generator yields for one record. */
  function Hit(host: Host, p: Prepared, r: WordRecord): seq<string> {
    if Keep(host, p, r) then [r.orig] else []
  }

  /** Filtering four records, one at a time. */
  lemma FilteredFour(host: Host, p: Prepared, a: WordRecord, b: WordRecord, c: WordRecord, d: WordRecord)
    ensures Filtered(host, p, [a, b, c, d]) == Hit(host, p, a) + Hit(host, p, b) + Hit(host, p, c) + Hit(host, p, d)
  {
    assert [d][1..] == [];
    assert Filtered(host, p, [d]) == Hit(host, p, d);
    assert [c, d][1..] == [d];
    assert Filtered(host, p, [c, d]) == Hit(host, p, c) + Hit(host, p, d);
    assert [b, c, d][1..] == [c, d];
    assert Filtered(host, p, [b, c, d]) == Hit(host, p, b) + Hit(host, p, c) + Hit(host, p, d);
    assert [a, b, c, d][1..] == [b, c, d];
  }

  /** A suffix filter keeps file order and drops the word that does not end in the needle. */
  lemma ScenarioEndsWith(host: Host)
    requires FixesWords(host)
    ensures SearchResult(host, Query(None, Some("т"), None, None, None), Loaded(host, Lines()), 50, 0)
      == Ok(["кот", "кіт", "акт"])
  {
    ScenarioLoad(host);
    var p := Prepare(host, Query(None, Some("т"), None, None, None));
    assert p.ew == Some("т");
    var r0, r1, r2, r3 := WordRecord("котка", "котка", 5), WordRecord("кот", "кот", 3),
      WordRecord("кіт", "кіт", 3), WordRecord("акт", "акт", 3);
    assert Hit(host, p, r0) == [] by { assert r0.low[4..] != "т"; }
    assert Hit(host, p, r1) == ["кот"] by { assert r1.low[2..] == "т"; }
    assert Hit(host, p, r2) == ["кіт"] by { assert r2.low[2..] == "т"; }
    assert Hit(host, p, r3) == ["акт"] by { assert r3.low[2..] == "т"; }
    FilteredFour(host, p, r0, r1, r2, r3);
    var m := Filtered(host, p, [r0, r1, r2, r3]);
    assert m == ["кот", "кіт", "акт"];
    assert Page(m, 50, 0) == m by { assert m[0..3] == m; }
    assert Loaded(host, Lines()) == [r0, r1, r2, r3];
  }

  /** A substring filter with limit 1 returns only the first word that contains the needle. */
  lemma ScenarioContainsLimit(host: Host)
    requires FixesWords(host)
    ensures SearchResult(host, Query(None, None, Some("кот"), None, None), Loaded(host, Lines()), 1, 0)
      == Ok(["котка"])
  {
    ScenarioLoad(host);
    var data := Loaded(host, Lines());
    var p := Prepare(host, Query(None, None, Some("кот"), None, None));
    assert p.ct == Some("кот");
    assert OccursAt(data[0].low, "кот", 0);
    assert Keep(host, p, data[0]);
    var m := Filtered(host, p, data);
    assert m[0] == "котка";
  }

  /** A pattern that the engine finds in "акт" and in none of the other three words selects that word alone. */
  lemma ScenarioRegex(host: Host)
    requires FixesWords(host)
    requires host.reCompiles("^а.т$")
    requires !host.reSearch("^а.т$", "котка") && !host.reSearch("^а.т$", "кот") && !host.reSearch("^а.т$", "кіт")
    requires host.reSearch("^а.т$", "акт")
    ensures SearchResult(host, Query(None, None, None, None, Some("^а.т$")), Loaded(host, Lines()), 50, 0)
      == Ok(["акт"])
  {
    ScenarioLoad(host);
    var p := Prepare(host, Query(None, None, None, None, Some("^а.т$")));
    assert p == Prepared(None, None, None, None, Some("^а.т$"));
    var r0, r1, r2, r3 := WordRecord("котка", "котка", 5), WordRecord("кот", "кот", 3),
      WordRecord("кіт", "кіт", 3), WordRecord("акт", "акт", 3);
    assert !host.reSearch("^а.т$", r0.orig) && !host.reSearch("^а.т$", r1.orig) && !host.reSearch("^а.т$", r2.orig);
    assert Hit(host, p, r0) == [] && Hit(host, p, r1) == [] && Hit(host, p, r2) == [];
    assert Hit(host, p, r3) == ["акт"];
    FilteredFour(host, p, r0, r1, r2, r3);
    var m := Filtered(host, p, [r0, r1, r2, r3]);
    assert m == ["акт"];
    assert m[0..1] == m;
  }
}
