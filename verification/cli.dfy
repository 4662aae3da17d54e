/** The command-line layer: the prompt derived from one file's metadata,
    the choice between activation text and derived tags, the parsing of
    --prohibited_tags and the token that names the output file. */
module Lora2Wildcard {
  import opened JsonValue
  import opened PyText
  import opened TagParser
  import opened TagSelect

  // ---------------------------------------------------------------------
  // get_prompt_from_metadata
  // ---------------------------------------------------------------------

  /** The prompt for one file whose metadata read gave `md` (None when the
      file has no metadata or cannot be opened). Missing or empty metadata
      gives ""; otherwise the entries are sorted by frequency, highest first,
      projected to pairs and thresholded. Metadata without any key that
      parse_tags reads gives "" as well; a TypeError while parsing is passed on. */
  function PromptFromMetadata(md: Option<Metadata>, decode: Decoder, render: Render,
                              th: real, prohibited: seq<string>): (r: Result<string>)
    requires th >= 0.0
    ensures md.None? ==> r == Ok("")
    ensures md.Some? && Unrecognised(md.value) ==> r == Ok("")
    ensures md.Some? && md.value != map[] && Tags(md.value, decode, render).TypeError? ==> r == TypeError
  {
    if md.None? || md.value == map[] then Ok("")
    else
      match Tags(md.value, decode, render)
      case TypeError => TypeError
      case Ok(es) =>
        match Counts(es)
        case TypeError => TypeError
        case Ok(cs) => Prompt(SortDesc(cs), th, prohibited)
  }

  method GetPromptFromMetadata(md: Option<Metadata>, decode: Decoder, render: Render,
                               th: real, prohibited: seq<string>) returns (r: Result<string>)
    requires th >= 0.0
    ensures r == PromptFromMetadata(md, decode, render, th, prohibited)
  {
    if md.None? || md.value == map[] {
      return Ok("");
    }
    var tags := ParseTags(md.value, decode, render);
    if tags.TypeError? {
      return TypeError;
    }
    var pairs := Counts(tags.value);
    if pairs.TypeError? {
      return TypeError;
    }
    r := GeneratePrompt(SortDesc(pairs.value), th, prohibited);
  }

  /** With th >= 1 a file whose metadata parses, and whose frequencies are
      non-negative numbers, gets the empty prompt. */
  lemma HighThresholdEmptyPrompt(md: Option<Metadata>, decode: Decoder, render: Render,
                                 th: real, prohibited: seq<string>)
    requires th >= 1.0
    requires md.Some? ==> Tags(md.value, decode, render).Ok?
    requires md.Some? ==> forall e :: e in Tags(md.value, decode, render).value ==>
                            Number(e.freq).Some? && Number(e.freq).value >= 0.0
    ensures PromptFromMetadata(md, decode, render, th, prohibited) == Ok("")
  {
    if md.Some? && md.value != map[] {
      var es := Tags(md.value, decode, render).value;
      assert forall i :: 0 <= i < |es| ==> es[i] in es;
      var cs := Counts(es).value;
      ThresholdAtLeastOne(cs, th, prohibited);
    }
  }

  // ---------------------------------------------------------------------
  // The --act choice in main
  // ---------------------------------------------------------------------

  /** The prompt of one file: with --act the activation text, falling back to
      the derived tags when it is empty; without it the derived tags, falling
      back to the activation text. Deriving raises only when it is used. */
  function ChoosePrompt(act: bool, activation: string, derived: Result<string>): (r: Result<string>)
    ensures act && activation != "" ==> r == Ok(activation)
    ensures !act && derived.Ok? && derived.value != "" ==> r == derived
    ensures r.Ok? ==> r.value == activation || (derived.Ok? && r.value == derived.value)
    ensures r.TypeError? <==> derived.TypeError? && (!act || activation == "")
    ensures r == Ok("") <==> derived == Ok("") && activation == ""
  {
    var primary := if act then Ok(activation) else derived;
    if primary.TypeError? then TypeError
    else if primary.value != "" then primary
    else if act then derived
    else Ok(activation)
  }

  /** The two modes pick different sources only when both have text. */
  lemma ModesDifferOnlyWhenBothPresent(activation: string, derived: Result<string>)
    ensures ChoosePrompt(true, activation, derived) != ChoosePrompt(false, activation, derived)
        <==> activation != "" && (derived.TypeError? || (derived.value != "" && derived.value != activation))
  {
    if activation != "" && derived.Ok? && derived.value == "" {
      assert ChoosePrompt(false, activation, derived) == Ok(activation);
    }
  }

  // ---------------------------------------------------------------------
  // get_path_token
  // ---------------------------------------------------------------------

  /** The token naming the output file, from the parts of the directory
      path: its last two parts joined by "_", or its only part, or "". */
  function PathToken(parts: seq<string>): (r: string)
    ensures |parts| >= 2 ==> r == parts[|parts| - 2] + "_" + parts[|parts| - 1]
    ensures |parts| == 1 ==> r == parts[0]
    ensures |parts| == 0 ==> r == ""
  {
    if |parts| >= 2 then
      var last := parts[|parts| - 2..];
      assert last[1..] == [parts[|parts| - 1]];
      assert JoinWith("_", last[1..]) == parts[|parts| - 1];
      JoinWith("_", last)
    else if |parts| == 1 then parts[0]
    else ""
  }

  /** When the last two parts hold no "_", splitting the token on "_"
      gives them back. */
  lemma PathTokenSplits(parts: seq<string>)
    requires |parts| >= 1
    requires forall i :: 0 <= i < |parts| ==> '_' !in parts[i]
    ensures |parts| >= 2 ==> Split(PathToken(parts), '_') == parts[|parts| - 2..]
    ensures |parts| == 1 ==> Split(PathToken(parts), '_') == parts
  {
    var n := |parts|;
    if n >= 2 {
      var last := parts[n - 2..];
      assert PathToken(parts) == JoinWith(['_'], last);
      JoinThenSplit(last, '_');
    } else {
      assert JoinWith(['_'], parts) == parts[0];
      JoinThenSplit(parts, '_');
    }
  }

  // ---------------------------------------------------------------------
  // --prohibited_tags: split on "," and strip each piece
  // ---------------------------------------------------------------------

  function ParseProhibited(arg: string): (r: seq<string>)
    ensures |r| == multiset(arg)[','] + 1
    ensures forall i :: 0 <= i < |r| ==> ',' !in r[i]
    ensures forall i :: 0 <= i < |r| ==> Strip(r[i]) == r[i]
  {
    var pieces := Split(arg, ',');
    SplitPieces(arg, ',');
    var r := seq(|pieces|, i requires 0 <= i < |pieces| => Strip(pieces[i]));
    assert forall i :: 0 <= i < |r| ==> ',' !in r[i] by {
      forall i | 0 <= i < |r| ensures ',' !in r[i] {
        StripKeepsOut(pieces[i], ',');
      }
    }
    assert forall i :: 0 <= i < |r| ==> Strip(r[i]) == r[i] by {
      forall i | 0 <= i < |r| ensures Strip(r[i]) == r[i] {
        StripIdempotent(pieces[i]);
      }
    }
    r
  }

  /** Each name is its piece of the split with the surrounding whitespace
      dropped. */
  lemma ProhibitedPiece(arg: string, i: int)
    requires 0 <= i < |Split(arg, ',')|
    ensures i < |ParseProhibited(arg)|
    ensures exists k :: TrimmedAt(Split(arg, ',')[i], ParseProhibited(arg)[i], k)
  {
    assert ParseProhibited(arg)[i] == Strip(Split(arg, ',')[i]);
  }

  lemma StripKeepsOut(s: string, c: char)
    requires c !in s
    ensures c !in Strip(s)
  {
    var r := Strip(s);
    var k :| TrimmedAt(s, r, k);
  }

  /** Names written the way the option's default is, separated by ", ",
      are read back unchanged, provided each is free of "," and of
      surrounding whitespace. */
  lemma ProhibitedRoundTrip(names: seq<string>)
    requires |names| >= 1
    requires forall i :: 0 <= i < |names| ==> ',' !in names[i] && Bare(names[i])
    ensures ParseProhibited(JoinWith(", ", names)) == names
  {
    SplitJoinedNames(names);
    PaddedPieces(names);
    StripEach(JoinWith(", ", names), Padded(names), names);
  }

  lemma StripEach(arg: string, pieces: seq<string>, names: seq<string>)
    requires Split(arg, ',') == pieces && |pieces| == |names|
    requires forall i :: 0 <= i < |names| ==> Strip(pieces[i]) == names[i]
    ensures ParseProhibited(arg) == names
  {
    var r := ParseProhibited(arg);
    assert |r| == |names|;
    forall i | 0 <= i < |names| ensures r[i] == names[i] {
      assert r[i] == Strip(pieces[i]);
    }
  }

  /** Splitting a ", "-join on "," leaves the names, each but the first
      behind a space. */
  lemma SplitJoinedNames(names: seq<string>)
    requires |names| >= 1
    requires forall i :: 0 <= i < |names| ==> ',' !in names[i] && Bare(names[i])
    ensures Split(JoinWith(", ", names), ',') == Padded(names)
  {
    PaddedPieces(names);
    JoinThenSplit(Padded(names), ',');
    JoinPadded(names);
  }

  /** Each piece is free of "," and strips back to its name. */
  lemma PaddedPieces(names: seq<string>)
    requires forall i :: 0 <= i < |names| ==> ',' !in names[i] && Bare(names[i])
    ensures forall i :: 0 <= i < |names| ==> ',' !in Padded(names)[i]
    ensures forall i :: 0 <= i < |names| ==> Strip(Padded(names)[i]) == names[i]
  {
    var pieces := Padded(names);
    forall i | 0 < i < |names| ensures ',' !in pieces[i] {
      assert pieces[i] == [' '] + names[i];
    }
    forall i | 0 <= i < |names| ensures Strip(pieces[i]) == names[i] {
      if i > 0 {
        StripSpaceBefore(names[i]);
      } else {
        StripUntrimmed(names[0]);
      }
    }
  }

  /** The pieces that "," leaves of a ", "-join: every name but the first
      keeps the space before it. */
  function Padded(names: seq<string>): (r: seq<string>)
    ensures |r| == |names|
    ensures |names| > 0 ==> r[0] == names[0]
    ensures forall i :: 0 < i < |names| ==> r[i] == [' '] + names[i]
  {
    seq(|names|, i requires 0 <= i < |names| => if i == 0 then names[i] else [' '] + names[i])
  }

  lemma {:induction false} JoinPadded(names: seq<string>)
    requires |names| >= 1
    ensures JoinWith(", ", names) == JoinWith([','], Padded(names))
    decreases |names|
  {
    if |names| > 1 {
      var rest := names[1..];
      JoinPadded(rest);
      var p := Padded(names);
      var q := Padded(rest);
      assert p[1..] == [[' '] + q[0]] + q[1..];
      JoinCons([','], ' ', q);
      assert JoinWith([','], p) == names[0] + [','] + JoinWith([','], p[1..]);
      assert ", " == [','] + [' '];
    }
  }

  lemma StripSpaceBefore(s: string)
    requires Bare(s)
    ensures Strip([' '] + s) == s
  {
    assert ([' '] + s)[1..] == s;
    StripUntrimmed(s);
  }

  /** The default value of --prohibited_tags. */
  const DefaultProhibitedTags := "simple background, white background"

  lemma DefaultJoined()
    ensures JoinWith(", ", ["simple background", "white background"]) == DefaultProhibitedTags
  {
  }

  /** The default names the two backgrounds. */
  lemma DefaultProhibited()
    ensures ParseProhibited(DefaultProhibitedTags) == ["simple background", "white background"]
  {
    var names := ["simple background", "white background"];
    DefaultJoined();
    forall i | 0 <= i < |names| ensures ',' !in names[i] && Bare(names[i]) {
      var n := names[i];
      assert '!' <= n[0] <= '~' && '!' <= n[|n| - 1] <= '~';
    }
    ProhibitedRoundTrip(names);
  }
}
