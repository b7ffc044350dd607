/**
 Prometheus metric keys (pkg/slo/common/promkey): the parser, the formatter and the escaping of label
 values, and what they owe each other.  Every scanner loop is a method; the function it computes is
 written on the unread suffix of the input.
 */
module PromKey {
  import opened GoStrings
  import opened Sorting

  type Labels = map<string, string>

  datatype Series = Series(name: string, labels: Labels)

  datatype ParseError =
    | EmptyToken | MissingBrace | MissingEquals | MissingQuote
    | Unterminated | EscapeAtEnd | DanglingEscape

  // ----- names accepted by the selector and exposition syntax -----

  predicate NameStart(c: char)
  {
    'a' <= c <= 'z' || 'A' <= c <= 'Z' || c == '_'
  }

  predicate Digit(c: char)
  {
    '0' <= c <= '9'
  }

  predicate ValidMetricName(s: string)
  {
    && s != []
    && (NameStart(s[0]) || s[0] == ':')
    && forall c :: c in s ==> NameStart(c) || c == ':' || Digit(c)
  }

  predicate ValidLabelName(s: string)
  {
    && s != []
    && NameStart(s[0])
    && forall c :: c in s ==> NameStart(c) || Digit(c)
  }

  predicate ValidSeries(s: Series)
  {
    ValidMetricName(s.name) && forall k :: k in s.labels ==> ValidLabelName(k)
  }

  // ----- escaping label values -----

  function EscapedByte(c: char): (r: string)
    ensures r != []
  {
    match c
    case '\\' => "\\\\"
    case '\"' => "\\\""
    case '\n' => "\\n"
    case '\t' => "\\t"
    case '\r' => "\\r"
    case _ => [c]
  }

  function UnescapedByte(c: char): char
  {
    match c
    case 'n' => '\n'
    case 't' => '\t'
    case 'r' => '\r'
    case _ => c
  }

  function Escaped(v: string): string
  {
    if v == [] then [] else EscapedByte(v[0]) + Escaped(v[1..])
  }

  function Prepend(b: string, r: Option<string>): Option<string>
  {
    match r
    case None => None
    case Some(t) => Some(b + t)
  }

  lemma PrependTwice(a: string, b: string, r: Option<string>)
    ensures Prepend(a, Prepend(b, r)) == Prepend(a + b, r)
  {
    if r.Some? { assert a + (b + r.value) == (a + b) + r.value; }
  }

  /** None is the "dangling escape" error. */
  function Unescaped(v: string): Option<string>
  {
    if v == [] then Some([])
    else if v[0] == '\\' then
      if |v| < 2 then None else Prepend([UnescapedByte(v[1])], Unescaped(v[2..]))
    else Prepend([v[0]], Unescaped(v[1..]))
  }

  method EscapeLabelValue(v: string) returns (b: string)
    ensures b == Escaped(v)
  {
    hide EscapedByte;
    b := [];
    for i := 0 to |v|
      invariant b + Escaped(v[i..]) == Escaped(v)
    {
      assert v[i..][1..] == v[i + 1..];
      b := b + EscapedByte(v[i]);
    }
  }

  method UnescapeLabelValue(v: string) returns (r: Option<string>)
    ensures r == Unescaped(v)
  {
    var b: string := [];
    var i := 0;
    assert v[0..] == v;
    assert Unescaped(v).Some? ==> [] + Unescaped(v).value == Unescaped(v).value;
    while i < |v|
      invariant 0 <= i <= |v|
      invariant Unescaped(v) == Prepend(b, Unescaped(v[i..]))
    {
      var ch := v[i];
      if ch != '\\' {
        assert v[i..][1..] == v[i + 1..];
        PrependTwice(b, [ch], Unescaped(v[i + 1..]));
        b := b + [ch];
        i := i + 1;
      } else {
        if i + 1 >= |v| {
          return None;
        }
        assert v[i..][2..] == v[i + 2..];
        PrependTwice(b, [UnescapedByte(v[i + 1])], Unescaped(v[i + 2..]));
        b := b + [UnescapedByte(v[i + 1])];
        i := i + 2;
      }
    }
    assert v[i..] == [] && b + [] == b;
    return Some(b);
  }

  /** A byte is written as itself or as a backslash and one byte that stands for it. */
  lemma EscapedByteShape(c: char)
    ensures var e := EscapedByte(c);
      || (e == [c] && c != '\\' && c != '\"')
      || (|e| == 2 && e == ['\\', e[1]] && UnescapedByte(e[1]) == c)
  {
  }

  lemma UnescapePlain(c: char, t: string)
    requires c != '\\'
    ensures Unescaped([c] + t) == Prepend([c], Unescaped(t))
  {
    assert ([c] + t)[1..] == t;
  }

  lemma UnescapePair(x: char, t: string)
    ensures Unescaped(['\\', x] + t) == Prepend([UnescapedByte(x)], Unescaped(t))
  {
    assert (['\\', x] + t)[2..] == t;
  }

  lemma UnescapeByte(c: char, t: string)
    ensures Unescaped(EscapedByte(c) + t) == Prepend([c], Unescaped(t))
  {
    EscapedByteShape(c);
    hide EscapedByte, UnescapedByte, Unescaped;
    var e := EscapedByte(c);
    if |e| == 1 {
      UnescapePlain(c, t);
    } else {
      UnescapePair(e[1], t);
    }
  }

  lemma {:induction false} UnescapeEscape(v: string)
    ensures Unescaped(Escaped(v)) == Some(v)
  {
    hide EscapedByte, UnescapedByte;
    if v != [] {
      UnescapeEscape(v[1..]);
      UnescapeByte(v[0], Escaped(v[1..]));
      assert v == [v[0]] + v[1..];
    }
  }

  lemma EscapeInjective(v: string, w: string)
    requires Escaped(v) == Escaped(w)
    ensures v == w
  {
    UnescapeEscape(v);
    UnescapeEscape(w);
  }

  // ----- scanning label blocks -----

  function SkipDelims(s: string): (r: string)
    ensures |r| <= |s|
    ensures r != [] ==> r[0] != ' ' && r[0] != ','
  {
    if s != [] && (s[0] == ' ' || s[0] == ',') then SkipDelims(s[1..]) else s
  }

  function SkipBlanks(s: string): (r: string)
    ensures |r| <= |s|
  {
    if s != [] && s[0] == ' ' then SkipBlanks(s[1..]) else s
  }

  function PrependRaw(b: string, r: Result<(string, string), ParseError>): Result<(string, string), ParseError>
  {
    match r
    case Err(e) => Err(e)
    case Ok((raw, rest)) => Ok((b + raw, rest))
  }

  lemma PrependRawTwice(a: string, b: string, r: Result<(string, string), ParseError>)
    ensures PrependRaw(a, PrependRaw(b, r)) == PrependRaw(a + b, r)
  {
    if r.Ok? { assert a + (b + r.value.0) == (a + b) + r.value.0; }
  }

  /** The raw text up to the closing quote, and what follows the quote; `s` starts after the opening one. */
  function CutQuoted(s: string): (r: Result<(string, string), ParseError>)
    ensures r.Ok? ==> |r.value.1| < |s|
    ensures r.Err? ==> r.error == Unterminated || r.error == EscapeAtEnd
  {
    if s == [] then Err(Unterminated)
    else if s[0] == '\"' then Ok(([], s[1..]))
    else if s[0] == '\\' then
      if |s| < 2 then Err(EscapeAtEnd)
      else PrependRaw(s[..2], CutQuoted(s[2..]))
    else PrependRaw(s[..1], CutQuoted(s[1..]))
  }

  /** Reads `key="value"` pairs into `acc`; a repeated key keeps its last value. */
  function ParsedLabels(s: string, acc: Labels): Result<Labels, ParseError>
    decreases |s|
  {
    var t := SkipDelims(s);
    if t == [] then Ok(acc) else
    var i := IndexOf(t, '=');
    if i == |t| then Err(MissingEquals) else
    var key := TrimSpace(t[..i]);
    var u := SkipBlanks(t[i + 1..]);
    if u == [] || u[0] != '\"' then Err(MissingQuote) else
    match CutQuoted(u[1..])
    case Err(e) => Err(e)
    case Ok((raw, rest)) =>
      match Unescaped(raw)
      case None => Err(DanglingEscape)
      case Some(v) => ParsedLabels(rest, acc[key := v])
  }

  function Parsed(token: string): Result<Series, ParseError>
  {
    var t := TrimSpace(token);
    if t == [] then Err(EmptyToken) else
    var br := IndexOf(t, '{');
    if br == |t| then Ok(Series(t, map[]))
    else if t[|t| - 1] != '}' then Err(MissingBrace)
    else match ParsedLabels(t[br + 1..|t| - 1], map[])
      case Err(e) => Err(e)
      case Ok(labels) => Ok(Series(t[..br], labels))
  }

  method SkipLabelDelims(s: string, start: nat) returns (i: nat)
    requires start <= |s|
    ensures start <= i <= |s|
    ensures s[i..] == SkipDelims(s[start..])
  {
    i := start;
    while i < |s| && (s[i] == ' ' || s[i] == ',')
      invariant start <= i <= |s|
      invariant SkipDelims(s[i..]) == SkipDelims(s[start..])
    {
      assert s[i..][1..] == s[i + 1..];
      i := i + 1;
    }
  }

  method ParseLabelKey(s: string, start: nat) returns (r: Result<(string, nat), ParseError>)
    requires start <= |s|
    ensures var t := s[start..]; var j := IndexOf(t, '=');
      r == if j == |t| then Err(MissingEquals) else Ok((TrimSpace(t[..j]), start + j + 1))
  {
    var i := start;
    while i < |s| && s[i] != '='
      invariant start <= i <= |s|
      invariant IndexOf(s[start..], '=') == i - start + IndexOf(s[i..], '=')
    {
      assert s[i..][1..] == s[i + 1..];
      i := i + 1;
    }
    if i >= |s| {
      return Err(MissingEquals);
    }
    assert s[start..i] == s[start..][..i - start];
    return Ok((TrimSpace(s[start..i]), i + 1));
  }

  /** The body of the value: `open` is the position after the opening quote. */
  method ScanQuoted(s: string, open: nat) returns (r: Result<(string, nat), ParseError>)
    requires open <= |s|
    ensures r.Ok? ==> open <= r.value.1 <= |s|
    ensures match CutQuoted(s[open..])
      case Err(e) => r == Err(e)
      case Ok(p) => r.Ok? && r.value.0 == p.0 && s[r.value.1..] == p.1
  {
    var i := open;
    var raw: string := [];
    assert CutQuoted(s[i..]).Ok? ==> [] + CutQuoted(s[i..]).value.0 == CutQuoted(s[i..]).value.0;
    while true
      invariant open <= i <= |s|
      invariant CutQuoted(s[open..]) == PrependRaw(raw, CutQuoted(s[i..]))
      decreases |s| - i
    {
      if i >= |s| {
        return Err(Unterminated);
      }
      var ch := s[i];
      if ch == '\"' {
        assert s[i..][1..] == s[i + 1..];
        assert raw + [] == raw;
        return Ok((raw, i + 1));
      }
      if ch == '\\' {
        if i + 1 >= |s| {
          return Err(EscapeAtEnd);
        }
        assert s[i..][2..] == s[i + 2..];
        assert s[i..][..2] == ['\\', s[i + 1]];
        PrependRawTwice(raw, ['\\', s[i + 1]], CutQuoted(s[i + 2..]));
        raw := raw + ['\\', s[i + 1]];
        i := i + 2;
        continue;
      }
      assert s[i..][1..] == s[i + 1..];
      assert s[i..][..1] == [ch];
      PrependRawTwice(raw, [ch], CutQuoted(s[i + 1..]));
      raw := raw + [ch];
      i := i + 1;
    }
  }

  method ParseQuotedLabelValueRaw(s: string, start: nat) returns (r: Result<(string, nat), ParseError>)
    requires start <= |s|
    ensures r.Ok? ==> start <= r.value.1 <= |s|
    ensures var u := SkipBlanks(s[start..]);
      if u == [] || u[0] != '\"' then r == Err(MissingQuote)
      else match CutQuoted(u[1..])
        case Err(e) => r == Err(e)
        case Ok(p) => r.Ok? && r.value.0 == p.0 && s[r.value.1..] == p.1
  {
    var i := start;
    while i < |s| && s[i] == ' '
      invariant start <= i <= |s|
      invariant SkipBlanks(s[i..]) == SkipBlanks(s[start..])
    {
      assert s[i..][1..] == s[i + 1..];
      i := i + 1;
    }
    if i >= |s| || s[i] != '\"' {
      return Err(MissingQuote);
    }
    assert s[i..][1..] == s[i + 1..];
    r := ScanQuoted(s, i + 1);
  }

  method ParseLabels(s: string) returns (r: Result<Labels, ParseError>)
    ensures r == ParsedLabels(s, map[])
  {
    var labels: Labels := map[];
    var i := 0;
    assert s[0..] == s;
    while true
      invariant 0 <= i <= |s|
      invariant ParsedLabels(s, map[]) == ParsedLabels(s[i..], labels)
      decreases |s| - i
    {
      i := SkipLabelDelims(s, i);
      if i >= |s| {
        break;
      }
      ghost var t := s[i..];
      var key := ParseLabelKey(s, i);
      if key.Err? {
        return Err(key.error);
      }
      var next := key.value.1;
      assert s[next..] == t[IndexOf(t, '=') + 1..];
      var raw := ParseQuotedLabelValueRaw(s, next);
      if raw.Err? {
        return Err(raw.error);
      }
      i := raw.value.1;
      var v := UnescapeLabelValue(raw.value.0);
      if v.None? {
        return Err(DanglingEscape);
      }
      labels := labels[key.value.0 := v.value];
    }
    return Ok(labels);
  }

  method Parse(token: string) returns (r: Result<Series, ParseError>)
    ensures r == Parsed(token)
  {
    hide TrimSpace, IndexOf;
    var t := TrimSpace(token);
    if t == "" {
      return Err(EmptyToken);
    }
    var br := IndexOf(t, '{');
    if br == |t| {
      return Ok(Series(t, map[]));
    }
    if t[|t| - 1] != '}' {
      return Err(MissingBrace);
    }
    var labels := ParseLabels(t[br + 1..|t| - 1]);
    if labels.Err? {
      return Err(labels.error);
    }
    return Ok(Series(t[..br], labels.value));
  }

  // ----- formatting -----

  function Pair(k: string, v: string): string
  {
    k + "=\"" + Escaped(v) + "\""
  }

  /** The pairs of `ks`, each preceded by a comma. */
  function Tail(ks: seq<string>, labels: Labels): string
    requires forall k :: k in ks ==> k in labels
  {
    if ks == [] then "" else "," + Pair(ks[0], labels[ks[0]]) + Tail(ks[1..], labels)
  }

  function Block(ks: seq<string>, labels: Labels): string
    requires forall k :: k in ks ==> k in labels
  {
    if ks == [] then "" else Pair(ks[0], labels[ks[0]]) + Tail(ks[1..], labels)
  }

  /** The label names in the order in which they are printed. */
  ghost function LabelOrder(labels: Labels): (ks: seq<string>)
    ensures forall k :: k in ks <==> k in labels
    ensures labels == map[] <==> ks == []
  {
    var ks := SortedKeys(labels.Keys);
    assert forall k :: k in ks <==> k in Elements(ks);
    assert labels != map[] ==> (forall x | x in labels.Keys :: x in ks);
    ks
  }

  ghost function Formatted(s: Series): string
  {
    if s.labels == map[] then s.name
    else s.name + "{" + Block(LabelOrder(s.labels), s.labels) + "}"
  }

  /** What is still to be written when the pairs before `i` are out. */
  ghost function Unwritten(ks: seq<string>, i: nat, labels: Labels): string
    requires i <= |ks| && forall k :: k in ks ==> k in labels
  {
    if i == 0 then Block(ks, labels) else Tail(ks[i..], labels)
  }

  lemma UnwrittenStep(ks: seq<string>, i: nat, labels: Labels)
    requires i < |ks| && forall k :: k in ks ==> k in labels
    ensures Unwritten(ks, i, labels) ==
      (if i > 0 then "," else "") + Pair(ks[i], labels[ks[i]]) + Unwritten(ks, i + 1, labels)
  {
    hide Pair;
    assert ks[i..][1..] == ks[i + 1..] && ks[i..][0] == ks[i];
    if i == 0 {
      assert ks[1..] == ks[i + 1..];
      var pair := Pair(ks[0], labels[ks[0]]);
      assert "" + pair == pair;
    }
  }

  lemma Regroup(a: string, b: string, c: string, d: string)
    ensures a + (b + c + d) == ((if b == "" then a else a + b) + c) + d
  {
  }

  method WriteLabels(keys: seq<string>, labels: Labels) returns (b: string)
    requires forall k :: k in keys ==> k in labels
    ensures b == Block(keys, labels)
  {
    b := "";
    for i := 0 to |keys|
      invariant Block(keys, labels) == b + Unwritten(keys, i, labels)
    {
      UnwrittenStep(keys, i, labels);
      Regroup(b, if i > 0 then "," else "", Pair(keys[i], labels[keys[i]]), Unwritten(keys, i + 1, labels));
      if i > 0 {
        b := b + ",";
      }
      var e := EscapeLabelValue(labels[keys[i]]);
      b := b + (keys[i] + "=\"" + e + "\"");
    }
    if keys != [] { assert keys[|keys|..] == []; }
  }

  /** The map is ranged over in an arbitrary order; the result is the same for every one. */
  method Format(name: string, labels: Labels) returns (b: string)
    ensures b == Formatted(Series(name, labels))
  {
    if |labels| == 0 {
      return name;
    }
    var keys := RangeKeys(labels.Keys);
    SortStringsOfSet(keys);
    keys := Sort(keys, StrLe);
    assert keys == LabelOrder(labels);
    var block := WriteLabels(keys, labels);
    b := name + "{" + block + "}";
  }

  /** The canonical spelling of a key. */
  ghost function Canonical(token: string): Result<string, ParseError>
  {
    match Parsed(token)
    case Err(e) => Err(e)
    case Ok(s) => Ok(Formatted(s))
  }

  method Canonicalize(token: string) returns (r: Result<string, ParseError>)
    ensures r == Canonical(token)
  {
    var p := Parse(token);
    if p.Err? {
      return Err(p.error);
    }
    var f := Format(p.value.name, p.value.labels);
    return Ok(f);
  }
}
