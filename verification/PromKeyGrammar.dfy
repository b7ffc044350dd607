/**
 Exactly which tokens parse, and to what (pkg/slo/common/promkey/promkey.go): the label block is a list of written
 pairs, each with delimiters before it and blanks before its quoted value.
 */
module PromKeyGrammar {
  import opened GoStrings
  import opened PromKey

  /** A pair as it is written: delimiters, key text, `=`, blanks, and the quoted raw text. */
  datatype WrittenPair = WrittenPair(delims: string, key: string, blanks: string, raw: string)

  predicate Delims(s: string)
  {
    forall i :: 0 <= i < |s| ==> s[i] == ' ' || s[i] == ','
  }

  predicate Blank(s: string)
  {
    forall i :: 0 <= i < |s| ==> s[i] == ' '
  }

  /** No quote but behind a backslash, and no backslash without a byte behind it. */
  predicate RawText(raw: string)
  {
    if raw == [] then true
    else if raw[0] == '\\' then |raw| >= 2 && RawText(raw[2..])
    else raw[0] != '\"' && RawText(raw[1..])
  }

  predicate ValidPair(p: WrittenPair)
  {
    && Delims(p.delims) && '=' !in p.key && (p.key != [] ==> p.key[0] != ' ' && p.key[0] != ',')
    && Blank(p.blanks) && RawText(p.raw)
  }

  predicate ValidPairs(ps: seq<WrittenPair>)
  {
    forall p :: p in ps ==> ValidPair(p)
  }

  function ValueText(p: WrittenPair): string
  {
    p.blanks + ("\"" + (p.raw + "\""))
  }

  function PairText(p: WrittenPair): string
  {
    p.delims + (p.key + ("=" + ValueText(p)))
  }

  function BlockText(ps: seq<WrittenPair>, trail: string): string
  {
    if ps == [] then trail else PairText(ps[0]) + BlockText(ps[1..], trail)
  }

  lemma {:induction false} RawUnescapes(raw: string)
    requires RawText(raw)
    ensures Unescaped(raw).Some?
  {
    if raw != [] {
      if raw[0] == '\\' { RawUnescapes(raw[2..]); } else { RawUnescapes(raw[1..]); }
    }
  }

  /** The value of a raw text. */
  function ValueOfRaw(raw: string): string
    requires RawText(raw)
  {
    RawUnescapes(raw);
    Unescaped(raw).value
  }

  /** Every pair in order, a repeated key keeping its last value. */
  function LabelsOf(ps: seq<WrittenPair>, acc: Labels): Labels
    requires ValidPairs(ps)
  {
    if ps == [] then acc
    else
      assert ValidPair(ps[0]);
      LabelsOf(ps[1..], acc[TrimSpace(ps[0].key) := ValueOfRaw(ps[0].raw)])
  }

  // ----- written pairs parse -----

  lemma {:induction false} SkipsDelims(d: string, t: string)
    requires Delims(d) && (t == [] || (t[0] != ' ' && t[0] != ','))
    ensures SkipDelims(d + t) == t
  {
    if d == [] {
      assert d + t == t;
    } else {
      assert (d + t)[0] == d[0] && (d + t)[1..] == d[1..] + t;
      SkipsDelims(d[1..], t);
    }
  }

  lemma {:induction false} SkipsBlanks(b: string, t: string)
    requires Blank(b) && t != [] && t[0] == '\"'
    ensures SkipBlanks(b + t) == t
  {
    if b == [] {
      assert b + t == t;
    } else {
      assert (b + t)[0] == b[0] && (b + t)[1..] == b[1..] + t;
      SkipsBlanks(b[1..], t);
    }
  }

  lemma {:induction false} CutsRaw(raw: string, rest: string)
    requires RawText(raw)
    ensures CutQuoted(raw + ("\"" + rest)) == Ok((raw, rest))
  {
    var s := raw + ("\"" + rest);
    if raw == [] {
      assert s == "\"" + rest && s[1..] == rest;
    } else if raw[0] == '\\' {
      CutsRaw(raw[2..], rest);
      assert s[..2] == raw[..2] && s[2..] == raw[2..] + ("\"" + rest) && raw == raw[..2] + raw[2..];
    } else {
      CutsRaw(raw[1..], rest);
      assert s[..1] == raw[..1] && s[1..] == raw[1..] + ("\"" + rest) && raw == raw[..1] + raw[1..];
    }
  }

  /** One step of the parser, on the parts that it cuts. */
  lemma ParseStep(s: string, key: string, u: string, raw: string, rest: string, acc: Labels)
    requires SkipDelims(s) == key + (['='] + u) && '=' !in key
    requires SkipBlanks(u) != [] && SkipBlanks(u)[0] == '\"'
    requires CutQuoted(SkipBlanks(u)[1..]) == Ok((raw, rest)) && Unescaped(raw).Some?
    ensures |rest| < |s|
    ensures ParsedLabels(s, acc) == ParsedLabels(rest, acc[TrimSpace(key) := Unescaped(raw).value])
  {
    var t := SkipDelims(s);
    assert t == key + ['='] + u;
    IndexOfSplit(key, '=', u);
    assert t[..|key|] == key && t[|key| + 1..] == u;
    hide SkipDelims, SkipBlanks, CutQuoted, Unescaped, TrimSpace;
  }

  lemma PairParses(p: WrittenPair, rest: string, acc: Labels)
    requires ValidPair(p)
    ensures ParsedLabels(PairText(p) + rest, acc) ==
      ParsedLabels(rest, acc[TrimSpace(p.key) := ValueOfRaw(p.raw)])
  {
    var quoted := "\"" + (p.raw + ("\"" + rest));
    var u := p.blanks + quoted;
    var t := p.key + (['='] + u);
    assert PairText(p) + rest == p.delims + t;
    SkipsDelims(p.delims, t);
    SkipsBlanks(p.blanks, quoted);
    assert quoted[1..] == p.raw + ("\"" + rest);
    CutsRaw(p.raw, rest);
    RawUnescapes(p.raw);
    hide SkipDelims, SkipBlanks, CutQuoted, ParsedLabels, TrimSpace, Unescaped, RawText;
    ParseStep(PairText(p) + rest, p.key, u, p.raw, rest, acc);
  }

  lemma TrailParses(trail: string, acc: Labels)
    requires Delims(trail)
    ensures ParsedLabels(trail, acc) == Ok(acc)
  {
    SkipsDelims(trail, []);
    assert trail + [] == trail;
  }

  lemma {:induction false} BlockParses(ps: seq<WrittenPair>, trail: string, acc: Labels)
    requires ValidPairs(ps) && Delims(trail)
    ensures ParsedLabels(BlockText(ps, trail), acc) == Ok(LabelsOf(ps, acc))
    decreases |ps|
  {
    hide ParsedLabels, PairText, RawText, Delims;
    if ps == [] {
      TrailParses(trail, acc);
    } else {
      assert ps[0] in ps;
      PairParses(ps[0], BlockText(ps[1..], trail), acc);
      BlockParses(ps[1..], trail, acc[TrimSpace(ps[0].key) := ValueOfRaw(ps[0].raw)]);
    }
  }

  // ----- and nothing else does -----

  lemma {:induction false} DelimsSkipped(s: string) returns (d: string)
    ensures Delims(d) && s == d + SkipDelims(s)
  {
    if s != [] && (s[0] == ' ' || s[0] == ',') {
      var e := DelimsSkipped(s[1..]);
      d := [s[0]] + e;
    } else {
      d := [];
    }
  }

  lemma {:induction false} BlanksSkipped(s: string) returns (b: string)
    ensures Blank(b) && s == b + SkipBlanks(s)
  {
    if s != [] && s[0] == ' ' {
      var e := BlanksSkipped(s[1..]);
      b := [s[0]] + e;
    } else {
      b := [];
    }
  }

  lemma {:induction false} CutIsRaw(s: string)
    requires CutQuoted(s).Ok?
    ensures var (raw, rest) := CutQuoted(s).value; RawText(raw) && s == raw + ("\"" + rest)
  {
    if s[0] == '\"' {
    } else if s[0] == '\\' {
      CutIsRaw(s[2..]);
      var (raw, rest) := CutQuoted(s[2..]).value;
      assert (s[..2] + raw)[2..] == raw;
    } else {
      CutIsRaw(s[1..]);
      var (raw, rest) := CutQuoted(s[1..]).value;
      assert (s[..1] + raw)[1..] == raw;
    }
  }

  lemma CutAround(s: string, i: nat)
    requires i < |s|
    ensures s == s[..i] + ([s[i]] + s[i + 1..])
  {
  }

  lemma NoneBefore(s: string, c: char)
    ensures c !in s[..IndexOf(s, c)]
  {
  }

  lemma QuoteFirst(q: string, raw: string, rest: string)
    requires q != [] && q[0] == '\"' && q[1..] == raw + ("\"" + rest)
    ensures q == "\"" + (raw + ("\"" + rest))
  {
  }

  /** What it takes for the block to parse. */
  lemma ParsedFacts(s: string, acc: Labels)
    requires ParsedLabels(s, acc).Ok? && SkipDelims(s) != []
    ensures var t := SkipDelims(s); var i := IndexOf(t, '=');
      && i < |t| && t[i] == '='
      && var q := SkipBlanks(t[i + 1..]);
      && q != [] && q[0] == '\"' && CutQuoted(q[1..]).Ok?
  {
    hide SkipDelims, SkipBlanks, CutQuoted, TrimSpace, Unescaped;
  }

  /** The first pair of a block that parses. */
  lemma FirstPair(s: string, acc: Labels) returns (p: WrittenPair, rest: string)
    requires ParsedLabels(s, acc).Ok? && SkipDelims(s) != []
    ensures ValidPair(p) && s == PairText(p) + rest && |rest| < |s|
  {
    ParsedFacts(s, acc);
    var d := DelimsSkipped(s);
    var t := SkipDelims(s);
    var i := IndexOf(t, '=');
    NoneBefore(t, '=');
    CutAround(t, i);
    var u := t[i + 1..];
    var b := BlanksSkipped(u);
    var q := SkipBlanks(u);
    CutIsRaw(q[1..]);
    var raw := CutQuoted(q[1..]).value.0;
    rest := CutQuoted(q[1..]).value.1;
    p := WrittenPair(d, t[..i], b, raw);
    QuoteFirst(q, raw, rest);
    hide IndexOf, SkipDelims, SkipBlanks, CutQuoted, ParsedLabels, PairText, RawText, Delims, Blank;
    PairTextIs(s, p, rest, t, u, q);
    assert p.key != [] ==> p.key[0] == t[0];
    DelimsStop(s);
  }

  lemma DelimsStop(s: string)
    ensures SkipDelims(s) != [] ==> SkipDelims(s)[0] != ' ' && SkipDelims(s)[0] != ','
  {
    hide SkipDelims;
  }

  lemma PairTextIs(s: string, p: WrittenPair, rest: string, t: string, u: string, q: string)
    requires s == p.delims + t && t == p.key + ("=" + u) && u == p.blanks + q
    requires q == "\"" + (p.raw + ("\"" + rest))
    ensures s == PairText(p) + rest && |rest| < |s|
  {
    assert ValueText(p) + rest == u;
    assert ("=" + ValueText(p)) + rest == "=" + u;
  }

  lemma {:induction false} ParsedIsBlock(s: string, acc: Labels) returns (ps: seq<WrittenPair>, trail: string)
    requires ParsedLabels(s, acc).Ok?
    ensures ValidPairs(ps) && Delims(trail) && s == BlockText(ps, trail)
    decreases |s|
  {
    if SkipDelims(s) == [] {
      trail := DelimsSkipped(s);
      ps := [];
      assert trail + [] == trail;
    } else {
      var p, rest := FirstPair(s, acc);
      hide ParsedLabels, SkipDelims, PairText, ValidPair;
      PairParses(p, rest, acc);
      var qs;
      qs, trail := ParsedIsBlock(rest, acc[TrimSpace(p.key) := ValueOfRaw(p.raw)]);
      ps := [p] + qs;
      assert ps[0] == p && ps[1..] == qs;
    }
  }

  /** A label block parses to these labels iff it is written as pairs that give them. */
  lemma LabelsExact(s: string, labels: Labels)
    ensures ParsedLabels(s, map[]) == Ok(labels) <==>
      exists ps, trail :: ValidPairs(ps) && Delims(trail) && s == BlockText(ps, trail) && labels == LabelsOf(ps, map[])
  {
    hide *;
    if ParsedLabels(s, map[]) == Ok(labels) {
      var ps, trail := ParsedIsBlock(s, map[]);
      BlockParses(ps, trail, map[]);
    }
    if ps, trail :|
      ValidPairs(ps) && Delims(trail) && s == BlockText(ps, trail) && labels == LabelsOf(ps, map[])
    {
      BlockParses(ps, trail, map[]);
    }
  }

  /** The trimmed token is a bare name, or a name and a label block in braces. */
  ghost predicate Written(t: string, s: Series)
  {
    || ('{' !in t && t != "" && s == Series(t, map[]))
    || ('{' !in s.name && exists ps, trail ::
         ValidPairs(ps) && Delims(trail) && t == s.name + ("{" + (BlockText(ps, trail) + "}")) &&
         s.labels == LabelsOf(ps, map[]))
  }

  lemma {:induction false} NoIndex(s: string, c: char)
    ensures IndexOf(s, c) == |s| <==> c !in s
  {
    if s != [] { NoIndex(s[1..], c); }
  }

  lemma ParsedAt(token: string, i: nat)
    requires var t := TrimSpace(token); i + 1 < |t| && IndexOf(t, '{') == i && t[|t| - 1] == '}'
    ensures var t := TrimSpace(token);
      Parsed(token) ==
        match ParsedLabels(t[i + 1..|t| - 1], map[])
        case Err(e) => Err(e)
        case Ok(labels) => Ok(Series(t[..i], labels))
  {
    hide TrimSpace, ParsedLabels, IndexOf;
  }

  lemma BracesAt(t: string, name: string, block: string)
    requires '{' !in name && t == name + ("{" + (block + "}"))
    ensures |name| + 1 < |t| && IndexOf(t, '{') == |name| && t[|t| - 1] == '}'
    ensures t[..|name|] == name && t[|name| + 1..|t| - 1] == block
  {
    assert t == name + ['{'] + (block + "}");
    IndexOfSplit(name, '{', block + "}");
    hide IndexOf;
    assert t[|name| + 1..] == block + "}";
  }

  /** A name and a block in braces parse as the block does. */
  lemma BracesParse(token: string, name: string, block: string)
    requires '{' !in name && TrimSpace(token) == name + ("{" + (block + "}"))
    ensures Parsed(token) ==
      match ParsedLabels(block, map[]) case Err(e) => Err(e) case Ok(labels) => Ok(Series(name, labels))
  {
    hide *;
    BracesAt(TrimSpace(token), name, block);
    ParsedAt(token, |name|);
  }

  lemma BareParses(token: string)
    requires '{' !in TrimSpace(token)
    ensures Parsed(token) == if TrimSpace(token) == "" then Err(EmptyToken) else Ok(Series(TrimSpace(token), map[]))
  {
    NoIndex(TrimSpace(token), '{');
    hide TrimSpace, ParsedLabels;
  }

  lemma CutBraces(t: string, i: nat)
    requires i < |t| && t[i] == '{' && t[|t| - 1] == '}'
    ensures i + 1 <= |t| - 1 && t == t[..i] + ("{" + (t[i + 1..|t| - 1] + "}"))
  {
    assert i != |t| - 1;
    assert t[i + 1..] == t[i + 1..|t| - 1] + "}";
    CutAround(t, i);
  }

  lemma BracesOf(token: string) returns (name: string, block: string)
    requires Parsed(token).Ok? && '{' in TrimSpace(token)
    ensures '{' !in name && TrimSpace(token) == name + ("{" + (block + "}"))
  {
    var t := TrimSpace(token);
    NoIndex(t, '{');
    NoneBefore(t, '{');
    hide TrimSpace, ParsedLabels;
    var i := IndexOf(t, '{');
    assert t[|t| - 1] == '}';
    CutBraces(t, i);
    name, block := t[..i], t[i + 1..|t| - 1];
  }

  lemma BraceInside(name: string, rest: string)
    ensures '{' in name + ("{" + rest)
  {
    assert (name + ("{" + rest))[|name|] == '{';
  }

  lemma WrittenBare(t: string, s: Series)
    requires '{' !in t
    ensures Written(t, s) <==> t != "" && s == Series(t, map[])
  {
    hide LabelsOf, BlockText, ValidPairs, Delims;
    forall name: string, rest: string ensures '{' in name + ("{" + rest) { BraceInside(name, rest); }
  }

  lemma WrittenBraced(t: string, s: Series) returns (ps: seq<WrittenPair>, trail: string)
    requires '{' in t && Written(t, s)
    ensures '{' !in s.name && ValidPairs(ps) && Delims(trail)
    ensures t == s.name + ("{" + (BlockText(ps, trail) + "}")) && s.labels == LabelsOf(ps, map[])
  {
    hide LabelsOf, BlockText, ValidPairs, Delims;
    ps, trail :|
      ValidPairs(ps) && Delims(trail) && t == s.name + ("{" + (BlockText(ps, trail) + "}")) &&
      s.labels == LabelsOf(ps, map[]);
  }

  /** A token parses to this series iff, without the white space around it, it is written like that. */
  lemma ParsedExact(token: string, s: Series)
    ensures Parsed(token) == Ok(s) <==> Written(TrimSpace(token), s)
  {
    hide TrimSpace, ParsedLabels, LabelsOf, ValidPairs, Delims, BlockText, Parsed;
    var t := TrimSpace(token);
    if '{' !in t {
      BareParses(token);
      WrittenBare(t, s);
    } else {
      if Parsed(token) == Ok(s) {
        var name, block := BracesOf(token);
        BracesParse(token, name, block);
        LabelsExact(block, s.labels);
      }
      if Written(t, s) {
        var ps, trail := WrittenBraced(t, s);
        BracesParse(token, s.name, BlockText(ps, trail));
        LabelsExact(BlockText(ps, trail), s.labels);
      }
    }
  }
}
