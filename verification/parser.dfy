/** The story parser (StoryTesterImpl.parseStory): text to an ordered list of sentences.

    A line is read with the pattern `([^ ]+) (.+) ([^ ]+)` searched anywhere in the line.
    Since only the space separates words, the match skips leading spaces, takes the first
    word as keyword, the word after the last space (ignoring trailing spaces) as parameter,
    and everything strictly between as phrase, which must not be empty. */
module Parser {
  import opened Wrappers
  import opened Text
  import opened Sentences

  /** The decomposition of a line: leading spaces, keyword, phrase, parameter, trailing spaces. */
  datatype LineParts = LineParts(lead: nat, keyword: string, phrase: string, param: string, trail: nat)

  /** The rejection of a story: the first line the pattern does not match
      (Java throws IllegalArgumentException). */
  datatype ParseError = Malformed(line: string)

  predicate WellShaped(p: LineParts) {
    Token(p.keyword) && |p.phrase| > 0 && Token(p.param)
  }

  /** The line a decomposition describes. */
  function Layout(p: LineParts): (line: string) {
    Spaces(p.lead) + p.keyword + [' '] + p.phrase + [' '] + p.param + Spaces(p.trail)
  }

  /** The match of the line pattern, or None when the line does not match it. */
  function MatchLine(line: string): (m: Option<LineParts>) {
    SplitCore(LeadingSpaces(line), Trimmed(line), TrailingSpaces(line[LeadingSpaces(line)..]))
  }

  /** The line without its leading and trailing spaces. */
  function Trimmed(line: string): (core: string) {
    var body := line[LeadingSpaces(line)..];
    body[..|body| - TrailingSpaces(body)]
  }

  /** Whatever MatchLine cuts out of a line lays that line out again. */
  lemma MatchLineSound(line: string)
    ensures MatchLine(line).Some? ==> WellShaped(MatchLine(line).value) && Layout(MatchLine(line).value) == line
  {
    var core := Trimmed(line);
    var r := SplitCore(LeadingSpaces(line), core, TrailingSpaces(line[LeadingSpaces(line)..]));
    if r.Some? {
      MatchedPartsLayout(line, r.value, core, IndexOf(core, ' ').value, LastIndexOf(core, ' ').value);
    }
  }

  /** The keyword, phrase and parameter of a line stripped of its outer spaces: the keyword
      ends at the first space, the parameter starts after the last, and the phrase between
      them must not be empty. */
  function SplitCore(lead: nat, core: string, trail: nat): (r: Option<LineParts>)
    ensures r.Some? ==> IndexOf(core, ' ').Some? && LastIndexOf(core, ' ').Some?
    ensures r.Some? ==>
      var k := IndexOf(core, ' ').value;
      var p := LastIndexOf(core, ' ').value;
      k + 2 <= p && r.value == LineParts(lead, core[..k], core[k + 1..p], core[p + 1..], trail)
  {
    match IndexOf(core, ' ')
    case None => None
    case Some(k) =>
      match LastIndexOf(core, ' ')
      case None => None
      case Some(p) =>
        if k + 2 <= p then Some(LineParts(lead, core[..k], core[k + 1..p], core[p + 1..], trail)) else None
  }

  /** The pieces MatchLine cuts out lay the line out again. */
  lemma MatchedPartsLayout(line: string, parts: LineParts, core: string, k: nat, p: nat)
    requires parts.lead == LeadingSpaces(line)
    requires parts.trail == TrailingSpaces(line[parts.lead..])
    requires core == line[parts.lead..][..|line| - parts.lead - parts.trail]
    requires IndexOf(core, ' ') == Some(k) && LastIndexOf(core, ' ') == Some(p) && k + 2 <= p
    requires parts.keyword == core[..k] && parts.phrase == core[k + 1..p] && parts.param == core[p + 1..]
    ensures WellShaped(parts) && Layout(parts) == line
  {
    var body := line[parts.lead..];
    LeadingSplit(line);
    assert line == Spaces(parts.lead) + body;
    TrailingSplit(body);
    assert body[..|body| - parts.trail] == core;
    assert body == core + Spaces(parts.trail);
    FirstNonSpace(line, parts.lead, body, core);
    LastNonSpace(body, parts.trail, core);
    CoreSplit(core, k, p);
    PartsShape(parts, core, k, p);
    LayoutAround(parts, core);
  }

  /** Pieces cut from a core at its first and last space make a well-shaped decomposition. */
  lemma PartsShape(parts: LineParts, core: string, k: nat, p: nat)
    requires k + 2 <= p < |core|
    requires Token(core[..k]) && Token(core[p + 1..])
    requires parts.keyword == core[..k] && parts.phrase == core[k + 1..p] && parts.param == core[p + 1..]
    ensures WellShaped(parts)
  {
  }

  /** A layout is the leading spaces, the keyword-phrase-parameter core, and the trailing spaces. */
  lemma LayoutAround(parts: LineParts, core: string)
    requires core == parts.keyword + [' '] + parts.phrase + [' '] + parts.param
    ensures Layout(parts) == Spaces(parts.lead) + (core + Spaces(parts.trail))
  {
  }

  /** After the leading spaces comes a non-space. */
  lemma FirstNonSpace(line: string, lead: nat, body: string, core: string)
    requires lead == LeadingSpaces(line) && body == line[lead..]
    requires 0 < |core| <= |body| && core == body[..|core|]
    ensures core[0] != ' '
  {
    assert core[0] == line[lead];
  }

  /** Before the trailing spaces comes a non-space. */
  lemma LastNonSpace(body: string, trail: nat, core: string)
    requires trail == TrailingSpaces(body) && trail <= |body|
    requires |core| > 0 && core == body[..|body| - trail]
    ensures core[|core| - 1] != ' '
  {
    assert core[|core| - 1] == body[|body| - 1 - trail];
  }

  /** A word-initial, word-final string split at its first space k and last space p. */
  lemma CoreSplit(core: string, k: nat, p: nat)
    requires IndexOf(core, ' ') == Some(k) && LastIndexOf(core, ' ') == Some(p) && k + 2 <= p
    requires core[0] != ' ' && core[|core| - 1] != ' '
    ensures Token(core[..k]) && Token(core[p + 1..])
    ensures core == core[..k] + [' '] + core[k + 1..p] + [' '] + core[p + 1..]
  {
    KeywordToken(core, k);
    ParamToken(core, p);
    SplitAtSpaces(core, k, p);
  }

  /** Up to its first space, a string that starts with a non-space is one word. */
  lemma KeywordToken(core: string, k: nat)
    requires IndexOf(core, ' ') == Some(k) && core[0] != ' '
    ensures Token(core[..k])
  {
  }

  /** After its last space, a string that ends with a non-space is one word. */
  lemma ParamToken(core: string, p: nat)
    requires LastIndexOf(core, ' ') == Some(p) && core[|core| - 1] != ' '
    ensures Token(core[p + 1..])
  {
  }

  /** A string is the pieces around two of its spaces. */
  lemma SplitAtSpaces(core: string, k: nat, p: nat)
    requires k < p < |core| && core[k] == ' ' && core[p] == ' '
    ensures core == core[..k] + [' '] + core[k + 1..p] + [' '] + core[p + 1..]
  {
  }

  /** A string is its leading spaces followed by the rest. */
  lemma LeadingSplit(s: string)
    ensures s == Spaces(LeadingSpaces(s)) + s[LeadingSpaces(s)..]
  {
    PrefixSpaces(s, LeadingSpaces(s));
  }

  /** A string is its text up to the trailing spaces followed by those spaces. */
  lemma TrailingSplit(s: string)
    ensures s == s[..|s| - TrailingSpaces(s)] + Spaces(TrailingSpaces(s))
  {
    SuffixSpaces(s, TrailingSpaces(s));
  }

  /** A string whose first n characters are spaces is n spaces followed by the rest. */
  lemma PrefixSpaces(s: string, n: nat)
    requires n <= |s| && forall i :: 0 <= i < n ==> s[i] == ' '
    ensures s == Spaces(n) + s[n..]
  {
    assert s[..n] == Spaces(n);
    assert s == s[..n] + s[n..];
  }

  /** A string whose last n characters are spaces is the rest followed by n spaces. */
  lemma SuffixSpaces(s: string, n: nat)
    requires n <= |s| && forall i :: |s| - n <= i < |s| ==> s[i] == ' '
    ensures s == s[..|s| - n] + Spaces(n)
  {
    assert s[|s| - n..] == Spaces(n);
    assert s == s[..|s| - n] + s[|s| - n..];
  }

  /** Spaces in front of a word that starts with a non-space are exactly the leading spaces. */
  lemma LeadingSpacesOf(n: nat, rest: string)
    requires |rest| > 0 && rest[0] != ' '
    ensures LeadingSpaces(Spaces(n) + rest) == n
    ensures (Spaces(n) + rest)[n..] == rest
  {
    var s := Spaces(n) + rest;
    assert s[n] == rest[0];
    assert s[n..] == rest;
  }

  /** Spaces after a word that ends with a non-space are exactly the trailing spaces. */
  lemma TrailingSpacesOf(rest: string, n: nat)
    requires |rest| > 0 && rest[|rest| - 1] != ' '
    ensures TrailingSpaces(rest + Spaces(n)) == n
    ensures (rest + Spaces(n))[..|rest|] == rest
  {
    var s := rest + Spaces(n);
    assert s[|s| - 1 - n] == rest[|rest| - 1];
    assert s[..|rest|] == rest;
  }

  /** Every well-shaped line is matched, and decomposed the way it was laid out. */
  lemma MatchLineComplete(p: LineParts)
    requires WellShaped(p)
    ensures MatchLine(Layout(p)) == Some(p)
  {
    var core := p.keyword + [' '] + p.phrase + [' '] + p.param;
    TrimmedLayout(p, core);
    CoreSplitsBack(p, core);
  }

  /** MatchLine on a layout comes down to splitting its core. */
  lemma TrimmedLayout(p: LineParts, core: string)
    requires WellShaped(p)
    requires core == p.keyword + [' '] + p.phrase + [' '] + p.param
    ensures MatchLine(Layout(p)) == SplitCore(p.lead, core, p.trail)
  {
    var line := Layout(p);
    TrimsToCore(p, core);
    var lead := LeadingSpaces(line);
    assert lead == p.lead;
    var body := line[lead..];
    var trail := TrailingSpaces(body);
    assert trail == p.trail;
    assert body[..|body| - trail] == core;
    assert Trimmed(line) == core;
  }

  /** Splitting the core of a layout gives back its keyword, phrase and parameter. */
  lemma CoreSplitsBack(p: LineParts, core: string)
    requires WellShaped(p)
    requires core == p.keyword + [' '] + p.phrase + [' '] + p.param
    ensures SplitCore(p.lead, core, p.trail) == Some(p)
  {
    KeywordEnd(p, core);
    ParamStart(p, core);
    PhraseBetween(p, core);
  }

  /** Stripping the leading and trailing spaces of a layout leaves its core. */
  lemma TrimsToCore(p: LineParts, core: string)
    requires WellShaped(p)
    requires core == p.keyword + [' '] + p.phrase + [' '] + p.param
    ensures LeadingSpaces(Layout(p)) == p.lead
    ensures TrailingSpaces(Layout(p)[p.lead..]) == p.trail
    ensures Layout(p)[p.lead..][..|Layout(p)| - p.lead - p.trail] == core
  {
    var body := core + Spaces(p.trail);
    LayoutAround(p, core);
    CoreEdges(p, core);
    assert body[0] == core[0];
    LeadingSpacesOf(p.lead, body);
    TrailingSpacesOf(core, p.trail);
  }

  /** The core of a well-shaped line starts with its keyword and ends with its parameter. */
  lemma CoreEdges(p: LineParts, core: string)
    requires WellShaped(p)
    requires core == p.keyword + [' '] + p.phrase + [' '] + p.param
    ensures |core| > 0 && core[0] != ' ' && core[|core| - 1] != ' '
  {
    assert core[0] == p.keyword[0];
    assert core[|core| - 1] == p.param[|p.param| - 1];
  }

  /** In keyword-space-phrase-space-parameter the first space ends the keyword. */
  lemma KeywordEnd(p: LineParts, core: string)
    requires WellShaped(p)
    requires core == p.keyword + [' '] + p.phrase + [' '] + p.param
    ensures IndexOf(core, ' ') == Some(|p.keyword|)
    ensures core[..|p.keyword|] == p.keyword
  {
    assert core[..|p.keyword|] == p.keyword;
    IndexOfAt(core, ' ', |p.keyword|);
  }

  /** In keyword-space-phrase-space-parameter the last space starts the parameter. */
  lemma ParamStart(p: LineParts, core: string)
    requires WellShaped(p)
    requires core == p.keyword + [' '] + p.phrase + [' '] + p.param
    ensures LastIndexOf(core, ' ') == Some(|p.keyword| + 1 + |p.phrase|)
    ensures core[|p.keyword| + 2 + |p.phrase|..] == p.param
  {
    var q := |p.keyword| + 1 + |p.phrase|;
    assert core[q + 1..] == p.param;
    LastIndexOfAt(core, ' ', q);
  }

  /** In keyword-space-phrase-space-parameter the phrase lies between the two spaces. */
  lemma PhraseBetween(p: LineParts, core: string)
    requires core == p.keyword + [' '] + p.phrase + [' '] + p.param
    ensures core[|p.keyword| + 1..|p.keyword| + 1 + |p.phrase|] == p.phrase
  {
  }

  /** Whether a sentence is what its raw line says: the line matches the pattern with the
      sentence's keyword, phrase and parameter. */
  predicate Describes(s: Sentence) {
    match MatchLine(s.raw)
    case None => false
    case Some(p) => p.keyword == Keyword(s.kind) && p.phrase == s.phrase && p.param == s.param
  }

  /** One line: a sentence for a Given/When/Then line, nothing for a line that opens with
      any other word, an error for a line the pattern does not match. */
  function ParseLine(line: string): (r: Result<Option<Sentence>, ParseError>)
    ensures r.Err? <==> MatchLine(line).None?
    ensures r.Err? ==> r.error.line == line
    ensures r.Ok? && r.value.Some? ==> r.value.value.raw == line && Describes(r.value.value)
    ensures r.Ok? && r.value.None? ==> KindOf(MatchLine(line).value.keyword).None?
  {
    match MatchLine(line)
    case None => Err(Malformed(line))
    case Some(p) =>
      match KindOf(p.keyword)
      case None => Ok(None)
      case Some(k) => Ok(Some(Sentence(k, p.phrase, p.param, line)))
  }

  /** The lines in order; the first malformed line rejects them all. */
  function ParseLines(lines: seq<string>): (r: Result<seq<Sentence>, ParseError>)
    ensures r.Ok? <==> forall i :: 0 <= i < |lines| ==> MatchLine(lines[i]).Some?
    ensures r.Ok? ==> |r.value| <= |lines|
  {
    if |lines| == 0 then Ok([])
    else Chain(Lift(ParseLine(lines[0])), ParseLines(lines[1..]))
  }

  /** The outcome of one line as the outcome of a block of lines. */
  function Lift(r: Result<Option<Sentence>, ParseError>): (l: Result<seq<Sentence>, ParseError>)
    ensures l.Ok? <==> r.Ok?
    ensures l.Ok? ==> |l.value| <= 1
  {
    match r
    case Err(e) => Err(e)
    case Ok(None) => Ok([])
    case Ok(Some(s)) => Ok([s])
  }

  /** Results of two consecutive blocks of lines combined: the first error wins, otherwise
      the sentences are concatenated. */
  function Chain(a: Result<seq<Sentence>, ParseError>, b: Result<seq<Sentence>, ParseError>): (r: Result<seq<Sentence>, ParseError>)
    ensures r.Ok? <==> a.Ok? && b.Ok?
    ensures r.Ok? ==> r.value == a.value + b.value
    ensures a.Err? ==> r == a
    ensures a.Ok? && b.Err? ==> r == b
  {
    match a
    case Err(e) => Err(e)
    case Ok(x) =>
      match b
      case Err(e) => Err(e)
      case Ok(y) => Ok(x + y)
  }

  /** Combining block results is associative. */
  lemma ChainAssociative(a: Result<seq<Sentence>, ParseError>, b: Result<seq<Sentence>, ParseError>, c: Result<seq<Sentence>, ParseError>)
    ensures Chain(Chain(a, b), c) == Chain(a, Chain(b, c))
  {
    if a.Ok? && b.Ok? && c.Ok? {
      assert (a.value + b.value) + c.value == a.value + (b.value + c.value);
    }
  }

  /** parseStory: a null or empty story has no sentences; otherwise the lines of
      split("\n") are parsed in order. */
  function ParseStory(story: Option<string>): (r: Result<seq<Sentence>, ParseError>)
    ensures story.None? || story.value == [] ==> r == Ok([])
  {
    if story.None? || story.value == [] then Ok([])
    else ParseLines(Split(story.value, '\n'))
  }

  /** No lines, no sentences: the empty block is neutral on both sides. */
  lemma ChainNeutral(r: Result<seq<Sentence>, ParseError>)
    ensures Chain(Ok([]), r) == r && Chain(r, Ok([])) == r
  {
    if r.Ok? {
      assert [] + r.value == r.value && r.value + [] == r.value;
    }
  }

  /** Parsing is line by line and keeps line order: the parse of two blocks of lines is the
      parse of the first followed by the parse of the second, and the earlier malformed line
      is the one reported. */
  lemma {:induction false} ParseLinesAppend(a: seq<string>, b: seq<string>)
    ensures ParseLines(a + b) == Chain(ParseLines(a), ParseLines(b))
  {
    if |a| == 0 {
      assert a + b == b;
      ChainNeutral(ParseLines(b));
    } else {
      var ab := a + b;
      assert ab[0] == a[0];
      assert ab[1..] == a[1..] + b;
      ParseLinesAppend(a[1..], b);
      ChainAssociative(Lift(ParseLine(a[0])), ParseLines(a[1..]), ParseLines(b));
    }
  }

  /** A single line parses to one sentence when it opens with Given, When or Then, to no
      sentence when it opens with another word, and rejects the story when it is malformed. */
  lemma ParseLinesSingle(line: string)
    ensures ParseLine(line).Err? ==> ParseLines([line]) == Err(Malformed(line))
    ensures ParseLine(line) == Ok(None) ==> ParseLines([line]) == Ok([])
    ensures ParseLine(line).Ok? && ParseLine(line).value.Some? ==> ParseLines([line]) == Ok([ParseLine(line).value.value])
  {
    assert [line][1..] == [];
    ChainNeutral(Lift(ParseLine(line)));
  }

  /** Every parsed sentence comes from one of the lines and is what that line says. */
  lemma {:induction false} ParseLinesDescribes(lines: seq<string>)
    ensures ParseLines(lines).Ok? ==>
      forall j :: 0 <= j < |ParseLines(lines).value| ==>
        ParseLines(lines).value[j].raw in lines && Describes(ParseLines(lines).value[j])
  {
    if |lines| > 0 && ParseLines(lines).Ok? {
      ParseLinesDescribes(lines[1..]);
      var head := Lift(ParseLine(lines[0])).value;
      var rest := ParseLines(lines[1..]).value;
      assert ParseLines(lines).value == head + rest;
      forall j | 0 <= j < |ParseLines(lines).value|
        ensures ParseLines(lines).value[j].raw in lines && Describes(ParseLines(lines).value[j])
      {
        if j >= |head| {
          assert ParseLines(lines).value[j] == rest[j - |head|];
          assert rest[j - |head|].raw in lines[1..];
        }
      }
    }
  }

  /** A rejected list of lines is rejected for one of its lines, one the pattern does not match. */
  lemma {:induction false} ParseLinesRejects(lines: seq<string>)
    ensures ParseLines(lines).Err? ==>
      ParseLines(lines).error.line in lines && MatchLine(ParseLines(lines).error.line).None?
  {
    if |lines| > 0 && ParseLines(lines).Err? && ParseLine(lines[0]).Ok? {
      ParseLinesRejects(lines[1..]);
    }
  }

  /** A story written as lines joined by line breaks, the last line not empty, is parsed
      exactly as those lines. */
  lemma ParseStoryOfLines(lines: seq<string>)
    requires |lines| > 0 && lines[|lines| - 1] != []
    requires forall i :: 0 <= i < |lines| ==> '\n' !in lines[i]
    ensures ParseStory(Some(Join(lines, '\n'))) == ParseLines(lines)
  {
    var story := Join(lines, '\n');
    JoinContainsSep(lines, '\n');
    if |lines| > 1 {
      SegmentsOfJoin(lines, '\n');
      assert story != [];
      assert Split(story, '\n') == lines;
    } else {
      assert story == lines[0];
    }
  }

  /** Every sentence of a parsed story is what one of its lines says, and a rejected story
      is rejected for a line the pattern does not match; lines never contain a line break. */
  lemma ParseStoryLines(story: Option<string>)
    ensures ParseStory(story).Ok? ==>
      forall j :: 0 <= j < |ParseStory(story).value| ==>
        Describes(ParseStory(story).value[j]) && '\n' !in ParseStory(story).value[j].raw
    ensures ParseStory(story).Err? ==>
      MatchLine(ParseStory(story).error.line).None? && '\n' !in ParseStory(story).error.line
  {
    if story.Some? && story.value != [] {
      var lines := Split(story.value, '\n');
      ParseLinesDescribes(lines);
      ParseLinesRejects(lines);
    }
  }

  /** A story of nothing but line breaks has no sentences. */
  lemma BlankStory(story: string)
    requires forall i :: 0 <= i < |story| ==> story[i] == '\n'
    ensures ParseStory(Some(story)) == Ok([])
  {
    if story != [] {
      SplitOfSeparators(story, '\n');
    }
  }

  // ---- Writing sentences out and reading them back ----

  /** The line a sentence is written as: keyword, phrase and parameter, one space apart. */
  function Render(s: Sentence): (line: string) {
    Keyword(s.kind) + [' '] + s.phrase + [' '] + s.param
  }

  /** A sentence that survives being written into a story: a non-empty phrase, a one-word
      parameter, no line break, and its own rendering as its line. */
  predicate Printable(s: Sentence) {
    |s.phrase| > 0 && Token(s.param) && '\n' !in s.phrase && '\n' !in s.param && s.raw == Render(s)
  }

  function RenderAll(ss: seq<Sentence>): (r: seq<string>)
    ensures |r| == |ss| && forall i :: 0 <= i < |ss| ==> r[i] == Render(ss[i])
  {
    seq(|ss|, i requires 0 <= i < |ss| => Render(ss[i]))
  }

  /** A written sentence is read back as itself. */
  lemma ParseRendered(s: Sentence)
    requires Printable(s)
    ensures ParseLine(Render(s)) == Ok(Some(s))
  {
    var parts := LineParts(0, Keyword(s.kind), s.phrase, s.param, 0);
    KeywordShape(s.kind);
    MatchLineComplete(parts);
    RenderIsLayout(s, parts);
    KindOfKeyword(s.kind);
  }

  /** Every keyword is a single word without line breaks. */
  lemma KeywordShape(k: Kind)
    ensures Token(Keyword(k)) && '\n' !in Keyword(k)
  {
    match k
    case Given => assert Keyword(k) == "Given";
    case When => assert Keyword(k) == "When";
    case Then => assert Keyword(k) == "Then";
  }

  lemma RenderIsLayout(s: Sentence, parts: LineParts)
    requires parts == LineParts(0, Keyword(s.kind), s.phrase, s.param, 0)
    ensures Layout(parts) == Render(s)
  {
    assert Spaces(0) == [];
  }

  /** Lines written from sentences parse back to exactly those sentences. */
  lemma {:induction false} ParseRenderedLines(ss: seq<Sentence>)
    requires forall i :: 0 <= i < |ss| ==> Printable(ss[i])
    ensures ParseLines(RenderAll(ss)) == Ok(ss)
  {
    if |ss| > 0 {
      var lines := RenderAll(ss);
      var rest := RenderAll(ss[1..]);
      assert lines[1..] == rest;
      ParseRendered(ss[0]);
      ParseRenderedLines(ss[1..]);
      assert ParseLines(lines) == Chain(Lift(Ok(Some(ss[0]))), ParseLines(rest));
      assert ss == [ss[0]] + ss[1..];
    }
  }

  /** The round trip for whole stories: sentences written one per line, joined with line
      breaks, parse back to the same sentences. */
  lemma ParseWrittenStory(ss: seq<Sentence>)
    requires |ss| > 0
    requires forall i :: 0 <= i < |ss| ==> Printable(ss[i])
    ensures ParseStory(Some(Join(RenderAll(ss), '\n'))) == Ok(ss)
  {
    var lines := RenderAll(ss);
    assert forall i :: 0 <= i < |lines| ==> '\n' !in lines[i] by {
      forall i | 0 <= i < |lines|
        ensures '\n' !in lines[i]
      {
        NoBreakInRender(ss[i]);
      }
    }
    assert |lines[|lines| - 1]| > 0;
    ParseStoryOfLines(lines);
    ParseRenderedLines(ss);
  }

  lemma NoBreakInRender(s: Sentence)
    requires Printable(s)
    ensures '\n' !in Render(s)
  {
    var k := Keyword(s.kind);
    KeywordShape(s.kind);
    var r := Render(s);
    forall i | 0 <= i < |r|
      ensures r[i] != '\n'
    {
      if i < |k| {
        assert r[i] == k[i];
      } else if i == |k| {
      } else if i < |k| + 1 + |s.phrase| {
        assert r[i] == s.phrase[i - |k| - 1];
      } else if i == |k| + 1 + |s.phrase| {
      } else {
        assert r[i] == s.param[i - |k| - 2 - |s.phrase|];
      }
    }
  }

  /** Line breaks at the end of a story add no lines: a story of lines joined by line
      breaks, the last line non-empty, followed by any number of line breaks, parses as
      those lines. */
  lemma StoryWithTrailingBreaks(lines: seq<string>, n: nat)
    requires |lines| > 0 && lines[|lines| - 1] != []
    requires forall i :: 0 <= i < |lines| ==> '\n' !in lines[i]
    ensures ParseStory(Some(Join(lines, '\n') + Repeat('\n', n))) == ParseLines(lines)
  {
    if n == 0 {
      assert Join(lines, '\n') + Repeat('\n', 0) == Join(lines, '\n');
      ParseStoryOfLines(lines);
    } else {
      var story := Join(lines, '\n') + Repeat('\n', n);
      SplitWithTrailingSeps(lines, n, '\n');
      assert story != [];
    }
  }
}
