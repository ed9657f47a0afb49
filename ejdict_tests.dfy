/** The library's own unit-test scenarios, stated over the model. */
module EjdictTests {
  import opened Wrappers
  import opened EjdictCore

  function Word1(): Word {
    Word(["apple"], "『リンゴ』;リンゴの木")
  }

  function Word2(): Word {
    Word(["apple butter"], "リンゴジャム(リンゴに香料・砂糖を加えて煮つめたジャム)")
  }

  function Word3(): Word {
    Word(["apple green"], "澄んだ淡い緑色")
  }

  function Word4(): Word {
    Word(["blue"],
      "『青い』,あい色の / 青黒い / 《話》陰気な,憂うつな /"
      + "〈U〉『青色』,あい色;青色の着物 /"
      + "〈U〉〈C〉青色絵の具,あい色染料 / 《the~》《詩》青空,青い海 /"
      + "《the blues》《話 》気のふさぎ,うれいの色 /"
      + "《the blues》《ときに単数扱い》(ジャズ音楽の)ブルース /"
      + "…'を'青色にする")
  }

  function TestWords(): seq<Word> {
    [Word1(), Word2(), Word3(), Word4()]
  }

  lemma TestDictionaryLook()
    ensures Dictionary(TestWords()).Look("apple", Exact) == Some(Word1())
    ensures Dictionary(TestWords()).Look("blue", Exact) == Some(Word4())
  {
    var d := Dictionary(TestWords());
    assert d.words[0].words[0] == "apple";
    assert d.words[3].words[0] == "blue";
    assert !d.words[0].Matches("blue", Exact);
    assert !d.words[1].Matches("blue", Exact);
    assert !d.words[2].Matches("blue", Exact);
  }

  /** `apple` as a prefix selects the first three entries, in order. */
  lemma TestCandidatesFilter()
    ensures Filter(TestWords(), "apple", Fuzzy) == [Word1(), Word2(), Word3()]
  {
    var ws := TestWords();
    assert ws[0].Matches("apple", Fuzzy) by { assert HeadwordMatches(ws[0].words[0], "apple", Fuzzy); }
    assert ws[1].Matches("apple", Fuzzy) by { assert HeadwordMatches(ws[1].words[0], "apple", Fuzzy); }
    assert ws[2].Matches("apple", Fuzzy) by { assert HeadwordMatches(ws[2].words[0], "apple", Fuzzy); }
    assert !ws[3].Matches("apple", Fuzzy);
    assert ws[1..][1..][1..][1..] == [];
  }

  /** Drives a cursor by hand: three matches in order, then exhaustion. */
  method TestDictionaryCandidates() returns (yielded: seq<Option<Word>>)
    ensures yielded == [Some(Word1()), Some(Word2()), Some(Word3()), None, None]
  {
    var d := Dictionary(TestWords());
    TestCandidatesFilter();
    var c := d.Candidates("apple", Fuzzy);
    var r1 := c.Next();
    assert r1 == Some(Word1());
    var r2 := c.Next();
    assert r2 == Some(Word2());
    var r3 := c.Next();
    assert r3 == Some(Word3());
    var r4 := c.Next();
    assert r4 == None;
    var r5 := c.Next();
    assert r5 == None;
    yielded := [r1, r2, r3, r4, r5];
  }

  lemma TestWordParseLine()
    ensures '\t' in "apple\t『リンゴ』;リンゴの木"
    ensures Word.ParseLine("apple\t『リンゴ』;リンゴの木") == Word1()
  {
    var mean := "『リンゴ』;リンゴの木";
    assert Text.Join(["apple"], ',') == "apple";
    assert "apple" + ['\t'] + mean == "apple\t『リンゴ』;リンゴの木";
    ParseLineRoundTrip(["apple"], mean);
  }

  lemma TestWordMatched()
    ensures Word1().Matched("apple", Exact) == Some(Word1())
    ensures Word1().Matched("a", Fuzzy) == Some(Word1())
    ensures Word1().Matched("Apple", Lower) == None
    ensures Word1().Matched("blue", Exact) == None
    ensures Word1().Matched("a", Exact) == None
    ensures Word1().Matched("Apple", Exact) == None
  {
    assert HeadwordMatches(Word1().words[0], "a", Fuzzy);
    LowerRejectsUppercasePattern(Word1(), "Apple", 0);
  }

  lemma TestSearchModeFromStr()
    ensures SearchMode.FromStr("exact") == Ok(Exact)
    ensures SearchMode.FromStr("fuzzy") == Ok(Fuzzy)
    ensures SearchMode.FromStr("lower") == Ok(Lower)
    ensures SearchMode.FromStr("other") == Err(InvalidSearchModeName("other"))
  {
  }
}
