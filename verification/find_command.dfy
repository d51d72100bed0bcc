/** The `/find` slash command of src/commands/find.rs: decoding its three
    options (the word, the search-type choice and the maximum distance) into
    the search options `find_words` runs with. */
module FindCommand {
  import opened Wrappers
  import opened Ints
  import opened Text
  import opened EditDistance
  import opened FuzzyIndex
  import opened Room
  import opened Actions
  import opened WrapParams

  /** The value of one command option as the bot receives it: a string, an
      integer, or some other kind it does not read. */
  datatype OptionValue = StrValue(str: string) | IntValue(int64: i64) | OtherValue

  /** `value.as_str()` */
  function AsStr(v: OptionValue): (r: Option<string>)
    ensures r.Some? <==> v.StrValue?
  {
    if v.StrValue? then Some(v.str) else None
  }

  /** `value.as_i64()` */
  function AsI64(v: OptionValue): (r: Option<i64>)
    ensures r.Some? <==> v.IntValue?
  {
    if v.IntValue? then Some(v.int64) else None
  }

  /** `data.options.get(k).and_then(|opt| opt.value.as_i64())` */
  function IntOption(opts: seq<OptionValue>, k: nat): (r: Option<i64>)
    ensures r.Some? <==> k < |opts| && opts[k].IntValue?
  {
    if k < |opts| then AsI64(opts[k]) else None
  }

  /** The search word: the first option as a string, and `""` when there is
      no first option or it is not a string. */
  function FindWord(opts: seq<OptionValue>): (w: string)
    ensures |opts| > 0 && opts[0].StrValue? ==> w == opts[0].str
    ensures |opts| == 0 || !opts[0].StrValue? ==> w == ""
  {
    if |opts| > 0 then AsStr(opts[0]).GetOr("") else ""
  }

  /** The integer the search-type choice registers for each match mode. */
  function ModeCode(mode: MatchMode): (c: i64)
    ensures 0 <= c <= 3
  {
    match mode
    case Exact => 0
    case Substring => 1
    case Prefix => 2
    case Suffix => 3
  }

  /** The choice that selects the edit-distance search. */
  const FuzzyCode: i64 := 4

  /** The match mode a search-type code selects: the four predicate codes
      select their mode, and the edit-distance code, any other integer or a
      missing option select none. */
  function ModeOfCode(code: Option<i64>): (m: Option<MatchMode>)
    ensures code == Some(0) ==> m == Some(Exact)
    ensures code == Some(1) ==> m == Some(Substring)
    ensures code == Some(2) ==> m == Some(Prefix)
    ensures code == Some(3) ==> m == Some(Suffix)
    ensures m.Some? <==> code.Some? && 0 <= code.value <= 3
  {
    match code
    case Some(0) => Some(Exact)
    case Some(1) => Some(Substring)
    case Some(2) => Some(Prefix)
    case Some(3) => Some(Suffix)
    case _ => None
  }

  /** The code table read both ways: each mode's registered code selects that
      mode, and a code that selects a mode is that mode's code. */
  lemma ModeCodeRoundTrip(mode: MatchMode, code: i64)
    ensures ModeOfCode(Some(ModeCode(mode))) == Some(mode)
    ensures ModeOfCode(Some(code)).Some? ==> ModeCode(ModeOfCode(Some(code)).value) == code
    ensures ModeOfCode(Some(FuzzyCode)).None?
  {
  }

  /** `run`: the word, and the options built from the search type and the
      maximum distance. The fuzzy distance is set only by the edit-distance
      choice; it is the given maximum cast `as usize`, which turns a negative
      number into that number plus 2^64, and a quarter of the word's UTF-8
      length when no maximum is given. */
  function FindRequest(opts: seq<OptionValue>): (r: (string, SearchOptions))
    ensures r.0 == FindWord(opts)
    ensures r.1.matchMode == ModeOfCode(IntOption(opts, 1))
    ensures r.1.fuzzyDistance.Some? <==> IntOption(opts, 1) == Some(FuzzyCode)
    ensures IntOption(opts, 1) == Some(FuzzyCode) && IntOption(opts, 2).Some? ==>
      var given := IntOption(opts, 2).value;
      && (given >= 0 ==> r.1.fuzzyDistance == Some(given))
      && (given < 0 ==> r.1.fuzzyDistance == Some(given + TWO_TO_THE_64))
    ensures IntOption(opts, 1) == Some(FuzzyCode) && IntOption(opts, 2).None? ==>
      r.1.fuzzyDistance == Some(Utf8Length(r.0) / 4)
  {
    var word := FindWord(opts);
    var code := IntOption(opts, 1);
    var given: Option<nat> := match IntOption(opts, 2) case Some(v) => Some(I64ToU64(v)) case None => None;
    var fuzzy := if code == Some(FuzzyCode) then Some(given.GetOr(Utf8Length(word) / 4)) else None;
    (word, SearchOptions(fuzzy, ModeOfCode(code)))
  }

  /** A predicate choice finds exactly the stored words that satisfy that
      mode's predicate; the edit-distance choice with maximum `d` finds
      exactly the stored words within `d` of the word. */
  lemma FindChoiceResults(room: RoomState, word: string, mode: MatchMode, d: i64, stored: Option<Index>, w: string)
    requires ValidIndex(GetIndexOrNew(room, stored).1)
    requires d >= 0
    ensures var ix := GetIndexOrNew(room, stored).1;
      var (q, options) := FindRequest([StrValue(word), IntValue(ModeCode(mode))]);
      && q == word
      && (w in FindWords(room, q, options, stored).1 <==> w in IndexWords(ix) && Matches(w, word, mode))
    ensures var ix := GetIndexOrNew(room, stored).1;
      var (q, options) := FindRequest([StrValue(word), IntValue(FuzzyCode), IntValue(d)]);
      && q == word
      && (w in FindWords(room, q, options, stored).1 <==> w in IndexWords(ix) && Dist(word, w) <= d)
  {
    ModeCodeRoundTrip(mode, 0);
  }

  /** The maximum distance `-1` is cast to `usize::MAX`, so every stored word
      is within range of the search. */
  lemma NegativeDistanceFindsAll(word: string)
    ensures FindRequest([StrValue(word), IntValue(FuzzyCode), IntValue(-1)]).1
         == SearchOptions(Some(TWO_TO_THE_64 - 1), None)
  {
  }
}
