/**
 * The in-memory English-Japanese dictionary: entries (`Word`), the three
 * match modes (`SearchMode`) and their text names, first-match lookup
 * (`Dictionary.Look`) and the lazy candidate cursor (`Candidates`).
 *
 * The same code exists in two copies of the library; this module models both
 * (the earlier copy calls the cursor `Candidate` and cannot clone it).
 */
module EjdictCore {
  import opened Wrappers
  import opened Text

  /** How a headword is compared with the pattern. */
  datatype SearchMode = Exact | Fuzzy | Lower
  {
    /** The canonical lowercase name of the mode. */
    function ToString(): string {
      match this
      case Exact => "exact"
      case Fuzzy => "fuzzy"
      case Lower => "lower"
    }

    /**
     * Parses a mode name. Succeeds exactly on the three canonical names and
     * otherwise reports the offending text unchanged.
     */
    static function FromStr(s: string): (r: Result<SearchMode, ConvertError>)
      ensures r.Ok? ==> r.value.ToString() == s
      ensures r.Err? ==> r.error == InvalidSearchModeName(s)
      ensures r.Err? <==> forall m: SearchMode :: m.ToString() != s
    {
      if Exact.ToString() == s then Ok(Exact)
      else if Fuzzy.ToString() == s then Ok(Fuzzy)
      else if Lower.ToString() == s then Ok(Lower)
      else Err(InvalidSearchModeName(s))
    }
  }

  /** The error of a failed mode-name conversion, carrying the rejected text. */
  datatype ConvertError = InvalidSearchModeName(argument: string)

  /**
   * A side fact about the names: each is five lowercase ASCII letters, so
   * lowercasing leaves it unchanged.
   */
  lemma ModeNamesAreLowercase(m: SearchMode)
    ensures |m.ToString()| == 5
    ensures forall i | 0 <= i < 5 :: 'a' <= m.ToString()[i] <= 'z'
    ensures ToLowercase(m.ToString()) == m.ToString()
  {
    LowercaseFixesLowercase(m.ToString());
  }

  /** Parsing a mode's own name gives that mode back. */
  lemma FromStrToString(m: SearchMode)
    ensures SearchMode.FromStr(m.ToString()) == Ok(m)
  {
  }

  /** Distinct modes have distinct names. */
  lemma ToStringInjective(m: SearchMode, n: SearchMode)
    ensures m.ToString() == n.ToString() ==> m == n
  {
  }

  /** The per-headword test of each mode; the pattern is never lowercased. */
  predicate HeadwordMatches(en: string, pat: string, mode: SearchMode) {
    match mode
    case Exact => en == pat
    case Fuzzy => StartsWith(en, pat)
    case Lower => ToLowercase(en) == pat
  }

  /** True when some headword satisfies `callback`, scanning in order. */
  function AnyHeadword(ws: seq<string>, callback: string -> bool): (b: bool)
    ensures b <==> exists k | 0 <= k < |ws| :: callback(ws[k])
  {
    if ws == [] then false
    else callback(ws[0]) || AnyHeadword(ws[1..], callback)
  }

  /** A dictionary entry: equivalent English headwords and one meaning text. */
  datatype Word = Word(words: seq<string>, mean: string)
  {
    /**
     * Reads one raw line `<headwords>\t<meaning>`. The headword field is the
     * text before the first tab, split on commas; the meaning is the text
     * between the first tab and the next tab (or the end of the line).
     * A line without a tab is not accepted.
     */
    static function ParseLine(line: string): (w: Word)
      requires '\t' in line
      ensures |w.words| >= 1
      ensures forall k | 0 <= k < |w.words| :: ',' !in w.words[k]
      ensures '\t' !in Join(w.words, ',') && '\t' !in w.mean
      ensures StartsWith(line, Join(w.words, ',') + ['\t'] + w.mean)
      ensures var n := |Join(w.words, ',')| + 1 + |w.mean|;
              n == |line| || line[n] == '\t'
    {
      var secs := Split(line, '\t');
      SplitFirstTwo(line, '\t');
      SplitPiecesAvoid(line, '\t');
      SplitPiecesAvoid(secs[0], ',');
      JoinSplit(secs[0], ',');
      Word(Split(secs[0], ','), secs[1])
    }

    /** Some headword passes the mode's test: the specification of a match. */
    predicate Matches(pat: string, mode: SearchMode) {
      exists k | 0 <= k < |words| :: HeadwordMatches(words[k], pat, mode)
    }

    /** `Some(this)` when some headword satisfies `callback`, else `None`. */
    function BaseMatched(callback: string -> bool): (r: Option<Word>)
      ensures r.Some? <==> exists k | 0 <= k < |words| :: callback(words[k])
      ensures r.Some? ==> r.value == this
    {
      if AnyHeadword(words, callback) then Some(this) else None
    }

    function ExactMatched(pat: string): (r: Option<Word>)
      ensures r.Some? <==> pat in words
      ensures r.Some? ==> r.value == this
    {
      BaseMatched(en => en == pat)
    }

    function FuzzyMatched(pat: string): (r: Option<Word>)
      ensures r.Some? <==> exists k | 0 <= k < |words| :: StartsWith(words[k], pat)
      ensures r.Some? ==> r.value == this
    {
      BaseMatched(en => StartsWith(en, pat))
    }

    /** Lowercases the headword only; the pattern is compared as given. */
    function LowerMatched(pat: string): (r: Option<Word>)
      ensures r.Some? <==> exists k | 0 <= k < |words| :: ToLowercase(words[k]) == pat
      ensures r.Some? ==> r.value == this
    {
      BaseMatched(en => ToLowercase(en) == pat)
    }

    /** `Some(this)` exactly when the entry matches the pattern under `mode`. */
    function Matched(pat: string, mode: SearchMode): (r: Option<Word>)
      ensures r.Some? <==> Matches(pat, mode)
      ensures r.Some? ==> r.value == this
    {
      match mode
      case Exact => ExactMatched(pat)
      case Fuzzy => FuzzyMatched(pat)
      case Lower => LowerMatched(pat)
    }
  }

  /** Parsing a line built from its parts gives back the entry. */
  lemma ParseLineRoundTrip(ws: seq<string>, mean: string)
    requires |ws| >= 1
    requires forall k | 0 <= k < |ws| :: ',' !in ws[k] && '\t' !in ws[k]
    requires '\t' !in mean
    ensures '\t' in Join(ws, ',') + ['\t'] + mean
    ensures Word.ParseLine(Join(ws, ',') + ['\t'] + mean) == Word(ws, mean)
  {
    var head := Join(ws, ',');
    JoinAvoids(ws, ',', '\t');
    SplitJoin([head, mean], '\t');
    assert Join([head, mean], '\t') == head + ['\t'] + mean;
    SplitJoin(ws, ',');
  }

  /** Everything after a second tab is ignored. */
  lemma ParseLineIgnoresExtraFields(line: string, extra: string)
    requires '\t' in line
    ensures '\t' in line + ['\t'] + extra
    ensures Word.ParseLine(line + ['\t'] + extra) == Word.ParseLine(line)
  {
    SplitAppend(line, '\t', extra);
  }

  /** An entry without headwords matches nothing. */
  lemma NoHeadwordsNeverMatch(w: Word, pat: string, mode: SearchMode)
    requires w.words == []
    ensures w.Matched(pat, mode) == None
  {
  }

  /** An exact match is also a prefix match. */
  lemma ExactImpliesFuzzy(w: Word, pat: string)
    ensures w.Matched(pat, Exact).Some? ==> w.Matched(pat, Fuzzy) == Some(w)
  {
    if w.Matched(pat, Exact).Some? {
      var k :| 0 <= k < |w.words| && w.words[k] == pat;
      assert HeadwordMatches(w.words[k], pat, Fuzzy);
    }
  }

  /** The empty pattern is a prefix of every headword. */
  lemma EmptyPatternFuzzyMatches(w: Word)
    ensures w.Matched("", Fuzzy).Some? <==> w.words != []
  {
    if w.words != [] {
      assert HeadwordMatches(w.words[0], "", Fuzzy);
    }
  }

  /**
   * Since only the headword is lowercased, a pattern with an ASCII capital
   * never matches in `Lower` mode, whatever the headwords are.
   */
  lemma LowerRejectsUppercasePattern(w: Word, pat: string, i: nat)
    requires i < |pat| && IsAsciiUpper(pat[i])
    ensures w.Matched(pat, Lower) == None
  {
  }

  /**
   * For a pattern without ASCII capitals, an exact match is also a `Lower`
   * match. This rests on the ASCII fold: under full Unicode lowercasing a
   * capital such as `É` would break it.
   */
  lemma ExactImpliesLowerForLowercasePattern(w: Word, pat: string)
    requires forall i | 0 <= i < |pat| :: !IsAsciiUpper(pat[i])
    ensures w.Matched(pat, Exact).Some? ==> w.Matched(pat, Lower) == Some(w)
  {
    if w.Matched(pat, Exact).Some? {
      var k :| 0 <= k < |w.words| && w.words[k] == pat;
      LowercaseFixesLowercase(pat);
      assert HeadwordMatches(w.words[k], pat, Lower);
    }
  }

  /** The matching entries of `ws`, in storage order. */
  function Filter(ws: seq<Word>, pat: string, mode: SearchMode): (r: seq<Word>)
    ensures |r| <= |ws|
  {
    if ws == [] then []
    else (if ws[0].Matches(pat, mode) then [ws[0]] else []) + Filter(ws[1..], pat, mode)
  }

  /** The filter holds every matching entry and nothing else. */
  lemma {:induction false} FilterMembers(ws: seq<Word>, pat: string, mode: SearchMode)
    ensures forall w :: w in Filter(ws, pat, mode) <==> w in ws && w.Matches(pat, mode)
  {
    if ws != [] {
      FilterMembers(ws[1..], pat, mode);
      assert ws == [ws[0]] + ws[1..];
    }
  }

  /** Filtering distributes over concatenation: order is kept, nothing is lost. */
  lemma {:induction false} FilterAppend(a: seq<Word>, b: seq<Word>, pat: string, mode: SearchMode)
    ensures Filter(a + b, pat, mode) == Filter(a, pat, mode) + Filter(b, pat, mode)
  {
    if a == [] {
      assert a + b == b;
    } else {
      var head := if a[0].Matches(pat, mode) then [a[0]] else [];
      assert (a + b)[0] == a[0];
      assert (a + b)[1..] == a[1..] + b;
      calc {
        Filter(a + b, pat, mode);
        head + Filter(a[1..] + b, pat, mode);
      == { FilterAppend(a[1..], b, pat, mode); }
        head + (Filter(a[1..], pat, mode) + Filter(b, pat, mode));
        Filter(a, pat, mode) + Filter(b, pat, mode);
      }
    }
  }

  /** Filtering from position `i` tests entry `i` and then continues from `i + 1`. */
  lemma FilterStep(ws: seq<Word>, i: nat, pat: string, mode: SearchMode)
    requires i < |ws|
    ensures Filter(ws[i..], pat, mode)
         == (if ws[i].Matches(pat, mode) then [ws[i]] else []) + Filter(ws[i + 1..], pat, mode)
  {
    assert ws[i..][1..] == ws[i + 1..];
  }

  /** The whole dictionary, in the order the entries were supplied. */
  datatype Dictionary = Dictionary(words: seq<Word>)
  {
    /**
     * The entry at the lowest index that matches, or `None` when no entry
     * matches. The dictionary is a value, so nothing changes.
     */
    function Look(pat: string, mode: SearchMode): (r: Option<Word>)
      ensures r.None? <==> forall i | 0 <= i < |words| :: !words[i].Matches(pat, mode)
      ensures r.Some? ==> exists k | 0 <= k < |words| ::
                            && r.value == words[k]
                            && words[k].Matches(pat, mode)
                            && forall j | 0 <= j < k :: !words[j].Matches(pat, mode)
      decreases |words|
    {
      if words == [] then None
      else match words[0].Matched(pat, mode)
        case Some(w) => Some(w)
        case None =>
          var r := Dictionary(words[1..]).Look(pat, mode);
          assert r.Some? ==> exists k | 0 <= k < |words[1..]| ::
            && r.value == words[1..][k] && words[k + 1].Matches(pat, mode)
            && forall j | 0 <= j < k :: !words[1..][j].Matches(pat, mode);
          r
    }

    /**
     * Hands the entries over to a fresh cursor that yields the matching
     * entries one at a time, starting from the first entry.
     */
    method Candidates(pat: string, mode: SearchMode) returns (c: Candidates)
      ensures fresh(c) && c.Valid()
      ensures c.words == words && c.pat == pat && c.mode == mode
      ensures c.pos == 0 && c.produced == []
      ensures c.Remaining() == Filter(words, pat, mode)
    {
      c := new Candidates(words, pat, mode);
    }
  }

  /** `Look` returns the first entry the candidate cursor would yield. */
  lemma {:induction false} LookIsFirstCandidate(d: Dictionary, pat: string, mode: SearchMode)
    ensures var f := Filter(d.words, pat, mode);
            d.Look(pat, mode) == if f == [] then None else Some(f[0])
    decreases |d.words|
  {
    if d.words != [] {
      LookIsFirstCandidate(Dictionary(d.words[1..]), pat, mode);
    }
  }

  /**
   * A forward-only cursor over the entries handed over by
   * `Dictionary.Candidates`. `pos` is the next entry to test; `produced` is
   * what the cursor has yielded so far.
   */
  class Candidates {
    const words: seq<Word>
    const pat: string
    const mode: SearchMode
    var pos: nat
    ghost var produced: seq<Word>

    /** What has been yielded, followed by what is still to come, is the full filter. */
    ghost predicate Valid()
      reads this
    {
      && pos <= |words|
      && produced + Filter(words[pos..], pat, mode) == Filter(words, pat, mode)
    }

    /** The matching entries not yet yielded. */
    ghost function Remaining(): seq<Word>
      reads this
      requires pos <= |words|
    {
      Filter(words[pos..], pat, mode)
    }

    constructor (words: seq<Word>, pat: string, mode: SearchMode)
      ensures Valid()
      ensures this.words == words && this.pat == pat && this.mode == mode
      ensures pos == 0 && produced == []
    {
      this.words := words;
      this.pat := pat;
      this.mode := mode;
      pos := 0;
      produced := [];
      assert words[0..] == words;
    }

    /**
     * Skips entries that do not match and yields the first one that does,
     * or `None` once the entries are used up. The cursor only moves forward,
     * and after `None` it stays at the end, so every later call gives `None`.
     */
    method Next() returns (r: Option<Word>)
      requires Valid()
      modifies this
      ensures Valid()
      ensures old(pos) <= pos
      ensures r.Some? <==> old(Remaining()) != []
      ensures r.Some? ==> && old(pos) < pos && words[pos - 1] == r.value
                          && forall j | old(pos) <= j < pos - 1 :: !words[j].Matches(pat, mode)
      ensures r.None? ==> forall j | old(pos) <= j < |words| :: !words[j].Matches(pat, mode)
      ensures r.Some? ==> && r.value == old(Remaining())[0]
                          && Remaining() == old(Remaining())[1..]
                          && produced == old(produced) + [r.value]
      ensures r.None? ==> pos == |words| && produced == old(produced) == Filter(words, pat, mode)
    {
      ghost var rest := Filter(words[pos..], pat, mode);
      while pos < |words|
        invariant old(pos) <= pos <= |words|
        invariant Filter(words[pos..], pat, mode) == rest
        invariant produced == old(produced)
        invariant forall j | old(pos) <= j < pos :: !words[j].Matches(pat, mode)
        decreases |words| - pos
      {
        var word := words[pos];
        FilterStep(words, pos, pat, mode);
        pos := pos + 1;
        if word.Matched(pat, mode).Some? {
          produced := produced + [word];
          return Some(word);
        }
      }
      assert words[pos..] == [];
      return None;
    }

    /** An independent cursor in the same state (the later copy derives `Clone`). */
    method Clone() returns (c: Candidates)
      requires Valid()
      ensures fresh(c) && c.Valid()
      ensures c.words == words && c.pat == pat && c.mode == mode
      ensures c.pos == pos && c.produced == produced
    {
      c := new Candidates(words, pat, mode);
      c.pos := pos;
      c.produced := produced;
    }
  }
}
