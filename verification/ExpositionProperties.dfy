/** Printing series in the exposition format and reading them back. */
module ExpositionProperties {
  import opened GoStrings
  import opened Sorting
  import opened PromKey
  import opened PromKeyProperties
  import opened Exposition

  // ----- the printer -----

  /** A line of an exposition document: a sample with an optional trailer (such as a timestamp), a comment, a blank
      line, or a word without a value. */
  datatype Line =
    | Sample(series: Series, token: string, trailer: string)
    | Comment(indent: nat, text: string)
    | Blank(indent: nat)
    | Word(text: string)

  function Blanks(n: nat): string
  {
    if n == 0 then [] else " " + Blanks(n - 1)
  }

  ghost function Printed(l: Line): string
  {
    match l
    case Sample(series, token, trailer) => Formatted(series) + " " + token + trailer
    case Comment(indent, text) => Blanks(indent) + "#" + text
    case Blank(indent) => Blanks(indent)
    case Word(text) => text
  }

  ghost function Document(lines: seq<Line>): string
  {
    if lines == [] then [] else Printed(lines[0]) + "\n" + Document(lines[1..])
  }

  predicate ValueToken(t: string)
  {
    t != "" && forall c :: c in t ==> Graphic(c) && c != '{'
  }

  predicate Trailer(t: string)
  {
    (t == "" || t[0] == ' ') && '{' !in t && '\n' !in t
  }

  ghost predicate ValidLine(l: Line)
  {
    && |Printed(l)| < MAX_LINE
    && match l
       case Sample(series, token, trailer) => ValidSeries(series) && ValueToken(token) && Trailer(trailer)
       case Comment(_, text) => '\n' !in text
       case Blank(_) => true
       case Word(text) => ValueToken(text)
  }

  // ----- white space -----

  lemma {:induction false} TrimLeftBlanks(n: nat, s: string)
    ensures TrimLeft(Blanks(n) + s) == TrimLeft(s)
  {
    if n == 0 {
      assert Blanks(0) + s == s;
    } else {
      var t := Blanks(n) + s;
      assert t == " " + (Blanks(n - 1) + s);
      assert t[1..] == Blanks(n - 1) + s;
      TrimLeftBlanks(n - 1, s);
    }
  }

  lemma {:induction false} FieldHeadToken(t: string, rest: string)
    requires forall c :: c in t ==> Graphic(c)
    requires rest == "" || rest[0] == ' '
    ensures FieldHead(t + rest) == t
  {
    if t == "" {
      assert t + rest == rest;
    } else {
      var s := t + rest;
      assert s[0] == t[0] && t[0] in t && s[1..] == t[1..] + rest;
      assert LeadingSpace(s) == 0;
      FieldHeadToken(t[1..], rest);
    }
  }

  // ----- finding the end of the label block -----

  lemma BlockEndEscapedByte(c: char, t: string)
    ensures BlockEnd(EscapedByte(c) + t, true) == After(|EscapedByte(c)|, BlockEnd(t, true))
  {
    EscapedByteShape(c);
    hide EscapedByte;
    var e := EscapedByte(c);
    if |e| == 1 {
      hide BlockEnd;
      BlockEndPlain(c, t);
    } else {
      hide BlockEnd;
      BlockEndEscape(e[1], t);
    }
  }

  lemma BlockEndPlain(c: char, t: string)
    requires c != '\\' && c != '\"'
    ensures BlockEnd([c] + t, true) == After(1, BlockEnd(t, true))
  {
    assert ([c] + t)[1..] == t;
  }

  lemma BlockEndEscape(x: char, t: string)
    ensures BlockEnd(['\\', x] + t, true) == After(2, BlockEnd(t, true))
  {
    var s := ['\\', x] + t;
    assert s[0] == '\\' && s[2..] == t;
  }

  lemma {:induction false} BlockEndEscaped(v: string, q: string)
    ensures BlockEnd(Escaped(v) + q, true) == After(|Escaped(v)|, BlockEnd(q, true))
  {
    hide BlockEnd, EscapedByte;
    if v == [] {
      assert [] + q == q;
    } else {
      var e, t := EscapedByte(v[0]), Escaped(v[1..]);
      assert Escaped(v) == e + t;
      hide Escaped;
      assert Escaped(v) + q == e + (t + q);
      BlockEndEscapedByte(v[0], t + q);
      BlockEndEscaped(v[1..], q);
    }
  }

  lemma BlockEndInQuotes(v: string, rest: string)
    ensures BlockEnd(Escaped(v) + ("\"" + rest), true) == After(|Escaped(v)| + 1, BlockEnd(rest, false))
  {
    hide Escaped;
    var q := "\"" + rest;
    BlockEndEscaped(v, q);
    assert q[1..] == rest;
  }

  lemma {:induction false} BlockEndName(k: string, rest: string)
    requires forall c :: c in k ==> c != '\"' && c != '}' && c != '\\'
    ensures BlockEnd(k + rest, false) == After(|k|, BlockEnd(rest, false))
  {
    if k == [] {
      assert k + rest == rest;
    } else {
      assert (k + rest)[1..] == k[1..] + rest;
      assert (k + rest)[0] == k[0] && k[0] in k;
      assert forall c :: c in k[1..] ==> c in k;
      BlockEndName(k[1..], rest);
    }
  }

  lemma QuoteOpens(q: string)
    ensures BlockEnd("\"" + q, false) == After(1, BlockEnd(q, true))
  {
    assert ("\"" + q)[1..] == q;
  }

  lemma PairText(k: string, e: string, rest: string)
    ensures (k + "=\"" + e + "\"") + rest == (k + "=") + ("\"" + (e + ("\"" + rest)))
  {
  }

  lemma BlockEndPair(k: string, v: string, rest: string)
    requires ValidLabelName(k)
    ensures BlockEnd(Pair(k, v) + rest, false) == After(|Pair(k, v)|, BlockEnd(rest, false))
  {
    hide Escaped, BlockEnd;
    var q := Escaped(v) + ("\"" + rest);
    PairText(k, Escaped(v), rest);
    BlockEndName(k + "=", "\"" + q);
    QuoteOpens(q);
    BlockEndInQuotes(v, rest);
  }

  lemma AfterTwice(a: nat, b: nat, n: Option<nat>)
    ensures After(a, After(b, n)) == After(a + b, n)
  {
  }

  lemma TailText(p: string, t: string, rest: string)
    ensures ("," + p + t) + rest == "," + (p + (t + rest))
  {
  }

  lemma {:induction false} BlockEndTail(ks: seq<string>, labels: Labels, rest: string)
    requires forall k :: k in ks ==> k in labels && ValidLabelName(k)
    ensures BlockEnd(Tail(ks, labels) + rest, false) == After(|Tail(ks, labels)|, BlockEnd(rest, false))
    decreases |ks|
  {
    if ks == [] {
      assert Tail(ks, labels) + rest == rest;
    } else {
      hide Pair, BlockEnd, After;
      var p, t := Pair(ks[0], labels[ks[0]]), Tail(ks[1..], labels);
      assert Tail(ks, labels) == "," + p + t;
      hide Tail;
      TailText(p, t, rest);
      AfterTwice(1, |p|, BlockEnd(t + rest, false));
      AfterTwice(1 + |p|, |t|, BlockEnd(rest, false));
      BlockEndName(",", p + (t + rest));
      BlockEndPair(ks[0], labels[ks[0]], t + rest);
      BlockEndTail(ks[1..], labels, rest);
    }
  }

  lemma BraceEnds(rest: string)
    ensures BlockEnd("}" + rest, false) == Some(0)
  {
  }

  lemma BlockText(ks: seq<string>, labels: Labels, rest: string)
    requires ks != [] && forall k :: k in ks ==> k in labels
    ensures var p, t := Pair(ks[0], labels[ks[0]]), Tail(ks[1..], labels);
      Block(ks, labels) + rest == p + (t + rest) && |Block(ks, labels)| == |p| + |t|
  {
    hide Pair, Tail;
    var p, t := Pair(ks[0], labels[ks[0]]), Tail(ks[1..], labels);
    assert (p + t) + rest == p + (t + rest);
  }

  lemma BlockEndPairs(ks: seq<string>, labels: Labels, rest: string)
    requires ks != [] && forall k :: k in ks ==> k in labels && ValidLabelName(k)
    ensures BlockEnd(Block(ks, labels) + rest, false) == After(|Block(ks, labels)|, BlockEnd(rest, false))
  {
    hide *;
    var p, t := Pair(ks[0], labels[ks[0]]), Tail(ks[1..], labels);
    BlockText(ks, labels, rest);
    BlockEndPair(ks[0], labels[ks[0]], t + rest);
    BlockEndTail(ks[1..], labels, rest);
    AfterTwice(|p|, |t|, BlockEnd(rest, false));
  }

  lemma NoLabels(labels: Labels, rest: string)
    ensures Block([], labels) + rest == rest
  {
  }

  lemma AfterStart(n: nat)
    ensures After(n, Some(0)) == Some(n)
  {
  }

  lemma BlockEndBlock(ks: seq<string>, labels: Labels, rest: string)
    requires forall k :: k in ks ==> k in labels && ValidLabelName(k)
    ensures BlockEnd(Block(ks, labels) + ("}" + rest), false) == Some(|Block(ks, labels)|)
  {
    hide *;
    BraceEnds(rest);
    if ks == [] {
      NoLabels(labels, "}" + rest);
    } else {
      BlockEndPairs(ks, labels, "}" + rest);
      AfterStart(|Block(ks, labels)|);
    }
  }

  // ----- one printed line -----

  lemma {:induction false} BlankOrTabName(name: string, rest: string)
    requires ' ' !in name && '\t' !in name
    ensures BlankOrTab(name + " " + rest) == |name|
  {
    var s := name + " " + rest;
    if name != [] {
      assert s[0] == name[0] && s[1..] == name[1..] + " " + rest;
      BlankOrTabName(name[1..], rest);
    }
  }

  lemma SplitBare(name: string, rest: string)
    requires '{' !in name && '{' !in rest && ' ' !in name && '\t' !in name
    ensures SplitOf(name + (" " + rest)) == Some((name, TrimSpace(" " + rest)))
  {
    hide TrimSpace, BlankOrTab, BlockEnd;
    var line := name + (" " + rest);
    assert line == name + " " + rest;
    BlankOrTabName(name, rest);
    assert line[..|name|] == name && line[|name|..] == " " + rest;
  }

  lemma SplitLabelled(name: string, block: string, rest: string)
    requires '{' !in name
    requires BlockEnd(block + ("}" + rest), false) == Some(|block|)
    ensures SplitOf(name + ['{'] + (block + "}") + rest) == Some((name + ['{'] + (block + "}"), TrimSpace(rest)))
  {
    hide TrimSpace, BlockEnd;
    var inside := block + ("}" + rest);
    var key := name + ['{'] + (block + "}");
    var line := key + rest;
    assert line == name + ['{'] + inside;
    IndexOfSplit(name, '{', inside);
    assert line[|name| + 1..] == inside;
    assert line[..|key|] == key && line[|key|..] == rest;
  }

  /** The split finds exactly the printed key, whatever the label values contain. */
  lemma SplitPrinted(s: Series, rest: string)
    requires ValidSeries(s) && '{' !in rest
    ensures SplitOf(Formatted(s) + (" " + rest)) == Some((Formatted(s), TrimSpace(" " + rest)))
  {
    hide SplitOf, Block;
    ValidMetricNameFacts(s.name);
    if s.labels == map[] {
      SplitBare(s.name, rest);
    } else {
      var ks := LabelOrder(s.labels);
      FormattedShape(s);
      BlockEndBlock(ks, s.labels, " " + rest);
      SplitLabelled(s.name, Block(ks, s.labels), " " + rest);
    }
  }

  lemma FormattedStart(s: Series)
    requires ValidSeries(s)
    ensures Formatted(s) != "" && Formatted(s)[0] == s.name[0]
  {
    if s.labels != map[] { FormattedShape(s); }
  }

  lemma ValueField(token: string, rest: string)
    requires ValueToken(token) && (rest == "" || rest[0] == ' ')
    ensures FirstField(TrimSpace(" " + (token + rest))) == Some(token)
  {
    TrimLeftBlanks(1, token + rest);
    assert Blanks(1) == " " by { assert Blanks(0) == []; }
    var t := token + rest;
    assert t[0] == token[0] && token[0] in token && token[|token| - 1] in token;
    assert LeadingSpace(t) == 0;
    var rest' := TrimRightKeeps(token, rest);
    assert TrimSpace(" " + t) == token + rest';
    assert (token + rest')[0] == token[0];
    FieldHeadToken(token, rest');
  }

  lemma TrimHead(head: string, trailer: string) returns (rest: string)
    requires head != "" && Graphic(head[0]) && Graphic(head[|head| - 1])
    ensures TrimSpace(DropCR(head + trailer)) == head + rest && rest <= trailer
  {
    var t := DropCR(trailer);
    assert DropCR(head + trailer) == head + t;
    assert (head + t)[0] == head[0];
    assert LeadingSpace(head + t) == 0;
    rest := TrimRightKeeps(head, t);
  }

  /** Trimming a printed sample only shortens its trailer. */
  lemma SampleTrimmed(key: string, token: string, trailer: string) returns (rest: string)
    requires key != "" && Graphic(key[0])
    requires ValueToken(token) && Trailer(trailer)
    ensures TrimSpace(DropCR(key + " " + token + trailer)) == key + (" " + (token + rest))
    ensures Trailer(rest)
  {
    var head := key + " " + token;
    assert token[|token| - 1] in token;
    assert head[|head| - 1] == token[|token| - 1] && head[0] == key[0];
    rest := TrimHead(head, trailer);
    assert head + rest == key + (" " + (token + rest));
  }

  /** A sample is read if its value token parses; otherwise the line is malformed. */
  lemma SampleMeaning(pf: FloatParser, l: Line)
    requires l.Sample? && ValidLine(l)
    ensures MeaningOf(pf, Printed(l)) ==
      match pf(l.token) case None => Malformed case Some(v) => Reading(Formatted(l.series), v)
  {
    hide Formatted;
    FormattedStart(l.series);
    ValidMetricNameFacts(l.series.name);
    var key := Formatted(l.series);
    var rest := SampleTrimmed(key, l.token, l.trailer);
    var line := TrimSpace(DropCR(Printed(l)));
    assert line[0] == key[0] != '#';
    assert '{' !in l.token + rest;
    SplitPrinted(l.series, l.token + rest);
    ParseFormat(l.series);
    ValueField(l.token, rest);
  }

  lemma {:induction false} BlanksAreBlank(n: nat)
    ensures forall c :: c in Blanks(n) ==> c == ' '
  {
    if n > 0 { BlanksAreBlank(n - 1); }
  }

  lemma BlankTrimmed(n: nat)
    ensures TrimSpace(DropCR(Blanks(n))) == ""
  {
    BlanksAreBlank(n);
    assert n > 0 ==> Blanks(n)[|Blanks(n)| - 1] in Blanks(n);
    assert Blanks(n) + "" == Blanks(n);
    TrimLeftBlanks(n, "");
  }

  lemma TrimmedFrom(n: nat, c: char, rest: string)
    requires Graphic(c)
    ensures var t := TrimSpace(Blanks(n) + ([c] + rest)); t != "" && t[0] == c
  {
    var s := [c] + rest;
    TrimLeftBlanks(n, s);
    hide Blanks;
    assert LeadingSpace(s) == 0;
    var t := TrimRightKeeps([c], rest);
  }

  lemma CommentText(front: string, text: string)
    ensures DropCR(front + "#" + text) == front + (['#'] + DropCR(text))
  {
    var s := front + "#" + text;
    assert s == front + (['#'] + text);
    if text != "" && text[|text| - 1] == '\r' {
      assert s[|s| - 1] == '\r';
      assert s[..|s| - 1] == front + (['#'] + text[..|text| - 1]);
    }
  }

  lemma CommentTrimmed(n: nat, text: string)
    ensures var t := TrimSpace(DropCR(Blanks(n) + "#" + text)); t != "" && t[0] == '#'
  {
    CommentText(Blanks(n), text);
    TrimmedFrom(n, '#', DropCR(text));
    hide TrimSpace, DropCR, Blanks;
  }

  lemma WordSplits(text: string)
    requires ValueToken(text)
    ensures TrimSpace(DropCR(text)) == text && SplitOf(text) == None
  {
    assert text[0] in text && text[|text| - 1] in text;
    TrimSpaceKeeps(text);
    NoBlankInWord(text);
    hide TrimSpace;
  }

  lemma {:induction false} NoBlankInWord(text: string)
    requires forall c :: c in text ==> Graphic(c) && c != '{'
    ensures BlankOrTab(text) == |text| && IndexOf(text, '{') == |text|
  {
    if text != [] {
      assert text[0] in text;
      NoBlankInWord(text[1..]);
    }
  }

  lemma NoiseMeaning(pf: FloatParser, l: Line)
    requires !l.Sample? && ValidLine(l)
    ensures MeaningOf(pf, Printed(l)) == Ignored
  {
    hide TrimSpace, DropCR, SplitOf;
    if l.Blank? {
      BlankTrimmed(l.indent);
    } else if l.Comment? {
      CommentTrimmed(l.indent, l.text);
    } else {
      WordSplits(l.text);
    }
  }

  // ----- whole documents -----

  lemma {:induction false} NoNewlineInEscaped(v: string)
    ensures '\n' !in Escaped(v)
  {
    if v != [] { NoNewlineInEscaped(v[1..]); }
  }

  lemma {:induction false} NoNewlineInTail(ks: seq<string>, labels: Labels)
    requires forall k :: k in ks ==> k in labels && ValidLabelName(k)
    ensures '\n' !in Tail(ks, labels)
    decreases |ks|
  {
    if ks != [] {
      NoNewlineInEscaped(labels[ks[0]]);
      NoNewlineInTail(ks[1..], labels);
    }
  }

  lemma NoNewlineInKey(s: Series)
    requires ValidSeries(s)
    ensures '\n' !in Formatted(s)
  {
    ValidMetricNameFacts(s.name);
    if s.labels != map[] {
      var ks := LabelOrder(s.labels);
      FormattedShape(s);
      NoNewlineInTail(ks, s.labels);
      TailIsBlock(ks, s.labels);
      assert forall c :: c in Block(ks, s.labels) ==> c in Tail(ks, s.labels);
    }
  }

  lemma NoNewlineInLine(l: Line)
    requires ValidLine(l)
    ensures '\n' !in Printed(l)
  {
    if l.Sample? { NoNewlineInKey(l.series); } else if !l.Word? { BlanksAreBlank(l.indent); }
  }

  ghost predicate Readable(pf: FloatParser, lines: seq<Line>)
  {
    forall l :: l in lines ==> ValidLine(l) && (l.Sample? ==> pf(l.token).Some?)
  }

  /** What the samples say; a repeated series keeps its last value. */
  ghost function Samples(pf: FloatParser, lines: seq<Line>, out: Readings): Readings
    requires Readable(pf, lines)
  {
    if lines == [] then out
    else Samples(pf, lines[1..],
      if lines[0].Sample? then out[Formatted(lines[0].series) := pf(lines[0].token).value] else out)
  }

  lemma {:induction false} ReadDocument(pf: FloatParser, lines: seq<Line>, out: Readings)
    requires Readable(pf, lines)
    ensures ReadFrom(pf, Document(lines), out) == Ok(Samples(pf, lines, out))
    decreases |lines|
  {
    if lines != [] {
      var l := lines[0];
      var p, rest := Printed(l), Document(lines[1..]);
      NoNewlineInLine(l);
      var text := Document(lines);
      assert text == p + ['\n'] + rest;
      IndexOfSplit(p, '\n', rest);
      assert text[..|p|] == p && text[|p| + 1..] == rest;
      if l.Sample? {
        SampleMeaning(pf, l);
        ReadDocument(pf, lines[1..], out[Formatted(l.series) := pf(l.token).value]);
      } else {
        NoiseMeaning(pf, l);
        ReadDocument(pf, lines[1..], out);
      }
    }
  }

  /** A document of well-formed lines is read iff every value token parses, and one that does not parse makes the whole
      read fail. */
  lemma {:induction false} ReadExact(pf: FloatParser, lines: seq<Line>, out: Readings)
    requires forall l :: l in lines ==> ValidLine(l)
    ensures var r := ReadFrom(pf, Document(lines), out);
      if forall l :: l in lines && l.Sample? ==> pf(l.token).Some? then r.Ok? else r == Err(BadFloat)
    decreases |lines|
  {
    if lines != [] {
      var l := lines[0];
      var p, rest := Printed(l), Document(lines[1..]);
      assert lines == [l] + lines[1..];
      NoNewlineInLine(l);
      assert Document(lines) == p + ['\n'] + rest;
      hide Printed, Document, MeaningOf, ValidLine;
      if l.Sample? { SampleMeaning(pf, l); } else { NoiseMeaning(pf, l); }
      LineShort(l);
      ReadLine(pf, p, rest, out);
      var next := if l.Sample? && pf(l.token).Some? then out[Formatted(l.series) := pf(l.token).value] else out;
      ReadExact(pf, lines[1..], next);
    }
  }

  lemma LineShort(l: Line)
    requires ValidLine(l)
    ensures |Printed(l)| < MAX_LINE
  {
  }

  /** What one line does to the rest of the read. */
  lemma ReadLine(pf: FloatParser, p: string, rest: string, out: Readings)
    requires '\n' !in p
    ensures ReadFrom(pf, p + ['\n'] + rest, out) ==
      if |p| >= MAX_LINE then Err(LineTooLong) else
      match MeaningOf(pf, p)
      case Ignored => ReadFrom(pf, rest, out)
      case Malformed => Err(BadFloat)
      case Reading(k, v) => ReadFrom(pf, rest, out[k := v])
  {
    var text := p + ['\n'] + rest;
    IndexOfSplit(p, '\n', rest);
    assert text[..|p|] == p && text[|p| + 1..] == rest;
    hide MeaningOf;
  }

  /** The line has no key token, or one that does not parse, or no value. */
  predicate NoReading(line: string)
  {
    match SplitOf(line)
    case None => true
    case Some((key, value)) => Parsed(key).Err? || FirstField(value).None?
  }

  /** Such a line is skipped; it is no error. */
  lemma JunkSkipped(pf: FloatParser, raw: string, rest: string, out: Readings)
    requires '\n' !in raw && |raw| < 1048576 && NoReading(TrimSpace(DropCR(raw)))
    ensures ReadFrom(pf, raw + ['\n'] + rest, out) == ReadFrom(pf, rest, out)
  {
    ReadLine(pf, raw, rest, out);
    hide ReadFrom, SplitOf, Parsed, Formatted, FirstField, TrimSpace, DropCR;
  }

  /** A line of 1048576 bytes or more makes the whole read fail, wherever the lines before it were readable. */
  lemma {:induction false} LongLineFails(pf: FloatParser, lines: seq<Line>, long: string, rest: string, out: Readings)
    requires Readable(pf, lines) && '\n' !in long && |long| >= 1048576
    ensures ReadFrom(pf, Document(lines) + (long + ['\n'] + rest), out) == Err(LineTooLong)
    decreases |lines|
  {
    var tail := long + ['\n'] + rest;
    if lines == [] {
      assert Document(lines) + tail == tail;
      hide Document, ReadFrom, MeaningOf;
      ReadLine(pf, long, rest, out);
    } else {
      var l := lines[0];
      var p, more := Printed(l), Document(lines[1..]);
      assert lines == [l] + lines[1..];
      NoNewlineInLine(l);
      assert Document(lines) == p + ['\n'] + more;
      hide Printed, Document, MeaningOf, ValidLine, ReadFrom;
      assert p + ['\n'] + more + tail == p + ['\n'] + (more + tail);
      if l.Sample? { SampleMeaning(pf, l); } else { NoiseMeaning(pf, l); }
      LineShort(l);
      ReadLine(pf, p, more + tail, out);
      var next := if l.Sample? then out[Formatted(l.series) := pf(l.token).value] else out;
      LongLineFails(pf, lines[1..], long, rest, next);
    }
  }

  /** The samples of `lines` are those of `m`: each one prints a member, and each member is printed. */
  ghost predicate Prints(pf: FloatParser, lines: seq<Line>, m: map<Series, real>)
  {
    && (forall l :: l in lines && l.Sample? ==> l.series in m && pf(l.token) == Some(m[l.series]))
    && (forall s :: s in m ==> exists l :: l in lines && l.Sample? && l.series == s)
  }

  /** The entries of `m` for the series in `done`, under their canonical keys. */
  ghost function KeyMap(done: set<Series>, m: map<Series, real>): Readings
    requires done <= m.Keys && forall s :: s in m ==> ValidSeries(s)
  {
    KeysDiffer(done);
    map s | s in done :: Formatted(s) := m[s]
  }

  lemma KeysDiffer(done: set<Series>)
    requires forall s :: s in done ==> ValidSeries(s)
    ensures forall s, t :: s in done && t in done && Formatted(s) == Formatted(t) ==> s == t
  {
    forall s, t | s in done && t in done && Formatted(s) == Formatted(t) ensures s == t {
      ParseFormat(s);
      ParseFormat(t);
    }
  }

  ghost function PrintedSeries(lines: seq<Line>): set<Series>
  {
    set l | l in lines && l.Sample? :: l.series
  }

  lemma KeyMapStep(done: set<Series>, m: map<Series, real>, s: Series)
    requires done <= m.Keys && forall s :: s in m ==> ValidSeries(s)
    requires s in m
    ensures KeyMap(done + {s}, m) == KeyMap(done, m)[Formatted(s) := m[s]]
  {
    hide Formatted, ValidSeries;
    KeysDiffer(done + {s});
    var l, r := KeyMap(done + {s}, m), KeyMap(done, m)[Formatted(s) := m[s]];
    assert s in done + {s};
    assert forall t :: t in done ==> t in done + {s};
    assert l.Keys == r.Keys;
  }

  lemma PrintedSeriesStep(lines: seq<Line>)
    requires lines != []
    ensures PrintedSeries(lines) ==
      (if lines[0].Sample? then {lines[0].series} else {}) + PrintedSeries(lines[1..])
  {
    assert lines == [lines[0]] + lines[1..];
  }

  lemma {:induction false} SamplesAre(pf: FloatParser, lines: seq<Line>, m: map<Series, real>, done: set<Series>)
    requires Readable(pf, lines)
    requires forall s :: s in m ==> ValidSeries(s)
    requires forall l :: l in lines && l.Sample? ==> l.series in m && pf(l.token) == Some(m[l.series])
    requires done <= m.Keys
    ensures PrintedSeries(lines) <= m.Keys
    ensures Samples(pf, lines, KeyMap(done, m)) == KeyMap(done + PrintedSeries(lines), m)
    decreases |lines|
  {
    hide Formatted, ValidSeries, ValidLine, KeyMap, Sorted;
    if lines == [] {
      assert done + PrintedSeries(lines) == done;
    } else {
      var s := if lines[0].Sample? then {lines[0].series} else {};
      PrintedSeriesStep(lines);
      if lines[0].Sample? {
        KeyMapStep(done, m, lines[0].series);
      } else {
        assert done + s == done;
      }
      SamplesAre(pf, lines[1..], m, done + s);
      assert done + s + PrintedSeries(lines[1..]) == done + PrintedSeries(lines);
    }
  }

  lemma PrintsAll(pf: FloatParser, lines: seq<Line>, m: map<Series, real>)
    requires Prints(pf, lines, m)
    ensures PrintedSeries(lines) == m.Keys
  {
    forall s | s in m ensures s in PrintedSeries(lines) {
      var l :| l in lines && l.Sample? && l.series == s;
    }
  }

  /** Round trip: a document that prints exactly the series of `m`, in any order, with any label values
      and with comments and blank lines between, is read back as `m`: one entry per series, under its
      canonical key, with its value, and no other entry. */
  lemma ExpositionRoundTrip(pf: FloatParser, lines: seq<Line>, m: map<Series, real>)
    requires Readable(pf, lines)
    requires forall s :: s in m ==> ValidSeries(s)
    requires Prints(pf, lines, m)
    ensures var r := ReadFrom(pf, Document(lines), map[]);
      && r.Ok?
      && (forall s :: s in m ==> Formatted(s) in r.value && r.value[Formatted(s)] == m[s])
      && (forall k :: k in r.value ==> Parsed(k).Ok? && Parsed(k).value in m && k == Formatted(Parsed(k).value))
  {
    hide Formatted, ValidSeries, Parsed, ReadFrom, Document, Samples;
    assert KeyMap({}, m) == map[];
    ReadDocument(pf, lines, map[]);
    SamplesAre(pf, lines, m, {});
    PrintsAll(pf, lines, m);
    assert {} + PrintedSeries(lines) == m.Keys;
    var r := KeyMap(m.Keys, m);
    forall s | s in m ensures Formatted(s) in r && r[Formatted(s)] == m[s] {
      assert s in m.Keys;
      KeysDiffer(m.Keys);
    }
    forall k | k in r ensures Parsed(k).Ok? && Parsed(k).value in m && k == Formatted(Parsed(k).value) {
      var s :| s in m.Keys && k == Formatted(s);
      ParseFormat(s);
    }
  }
}
