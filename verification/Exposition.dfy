/**
 Reading the Prometheus text exposition format 0.0.4 (pkg/slo/fetch/promtext/parse.go).  Parsing of a
 float token is a parameter: any partial function from tokens to values.
 */
module Exposition {
  import opened GoStrings
  import opened Sorting
  import opened PromKey

  type FloatParser = string -> Option<real>

  /** The scanner's buffer bound: a longer line makes the whole read fail. */
  const MAX_LINE: nat := 1048576

  datatype ReadError = LineTooLong | BadFloat

  type Readings = map<string, real>

  // ----- one line -----

  /** `bufio.ScanLines` drops one carriage return before the newline. */
  function DropCR(s: string): string
  {
    if s != [] && s[|s| - 1] == '\r' then s[..|s| - 1] else s
  }

  /** Position of the first blank or tab, `|s|` when there is none. */
  function BlankOrTab(s: string): (i: nat)
    ensures i <= |s|
  {
    if s == [] || s[0] == ' ' || s[0] == '\t' then 0 else 1 + BlankOrTab(s[1..])
  }

  function After(n: nat, r: Option<nat>): Option<nat>
  {
    match r
    case None => None
    case Some(i) => Some(n + i)
  }

  /** Position in `s` of the first closing brace outside quotes, when the scan starts in or outside
      quotes as `inQuotes` says. */
  function BlockEnd(s: string, inQuotes: bool): (r: Option<nat>)
    ensures r.Some? ==> r.value < |s|
  {
    if s == [] then None
    else if s[0] == '\\' && inQuotes then
      if |s| < 2 then None else After(2, BlockEnd(s[2..], inQuotes))
    else if s[0] == '\"' then After(1, BlockEnd(s[1..], !inQuotes))
    else if s[0] == '}' && !inQuotes then Some(0)
    else After(1, BlockEnd(s[1..], inQuotes))
  }

  /** Key token and value text of a line. */
  function SplitOf(line: string): Option<(string, string)>
  {
    var brace := IndexOf(line, '{');
    if brace == |line| then
      var i := BlankOrTab(line);
      if i == |line| then None else Some((line[..i], TrimSpace(line[i..])))
    else match BlockEnd(line[brace + 1..], false)
      case None => None
      case Some(n) => Some((line[..brace + 1 + n + 1], TrimSpace(line[brace + 1 + n + 1..])))
  }

  /** The characters before the first white space. */
  function FieldHead(s: string): string
  {
    if s == [] || LeadingSpace(s) > 0 then [] else [s[0]] + FieldHead(s[1..])
  }

  /** The first of `strings.Fields(s)`. */
  function FirstField(s: string): Option<string>
  {
    var t := TrimLeft(s);
    if t == [] then None else Some(FieldHead(t))
  }

  datatype LineMeaning = Ignored | Malformed | Reading(key: string, value: real)

  ghost function MeaningOf(pf: FloatParser, raw: string): LineMeaning
  {
    var line := TrimSpace(DropCR(raw));
    if line == "" || line[0] == '#' then Ignored else
    match SplitOf(line)
    case None => Ignored
    case Some((key, rest)) =>
      match Canonical(key)
      case Err(_) => Ignored
      case Ok(k) =>
        match FirstField(rest)
        case None => Ignored
        case Some(tok) => match pf(tok) case None => Malformed case Some(v) => Reading(k, v)
  }

  lemma BlockEndStep(line: string, i: nat, inQuotes: bool)
    requires i < |line|
    ensures After(i, BlockEnd(line[i..], inQuotes)) ==
      var c := line[i];
      if c == '\\' && inQuotes then
        if i + 1 == |line| then None else After(i + 2, BlockEnd(line[i + 2..], inQuotes))
      else if c == '\"' then After(i + 1, BlockEnd(line[i + 1..], !inQuotes))
      else if c == '}' && !inQuotes then Some(i)
      else After(i + 1, BlockEnd(line[i + 1..], inQuotes))
  {
    var s := line[i..];
    assert s[0] == line[i] && s[1..] == line[i + 1..];
    assert |s| >= 2 ==> s[2..] == line[i + 2..];
    StepOf(s, inQuotes);
    hide BlockEnd;
  }

  lemma StepOf(s: string, inQuotes: bool)
    requires s != []
    ensures BlockEnd(s, inQuotes) ==
      if s[0] == '\\' && inQuotes then
        if |s| < 2 then None else After(2, BlockEnd(s[2..], inQuotes))
      else if s[0] == '\"' then After(1, BlockEnd(s[1..], !inQuotes))
      else if s[0] == '}' && !inQuotes then Some(0)
      else After(1, BlockEnd(s[1..], inQuotes))
  {
  }

  method FindLabelBlockEnd(line: string, openBrace: nat) returns (r: Option<nat>)
    requires openBrace < |line|
    ensures r == After(openBrace + 1, BlockEnd(line[openBrace + 1..], false))
  {
    var inQuotes := false;
    var i := openBrace + 1;
    ghost var answer := After(i, BlockEnd(line[i..], false));
    while i < |line|
      invariant openBrace < i
      invariant answer == if i <= |line| then After(i, BlockEnd(line[i..], inQuotes)) else None
    {
      BlockEndStep(line, i, inQuotes);
      if line[i] == '\\' {
        if inQuotes {
          i := i + 1;
        }
      } else if line[i] == '\"' {
        inQuotes := !inQuotes;
      } else if line[i] == '}' {
        if !inQuotes {
          return Some(i);
        }
      }
      i := i + 1;
    }
    return None;
  }

  method SplitMetricLine(line: string) returns (r: Option<(string, string)>)
    ensures r == SplitOf(line)
  {
    var brace := IndexOf(line, '{');
    if brace == |line| {
      var i := BlankOrTab(line);
      if i == |line| {
        return None;
      }
      return Some((line[..i], TrimSpace(line[i..])));
    }
    var end := FindLabelBlockEnd(line, brace);
    if end.None? {
      return None;
    }
    return Some((line[..end.value + 1], TrimSpace(line[end.value + 1..])));
  }

  // ----- the whole text -----

  ghost function ReadFrom(pf: FloatParser, text: string, out: Readings): Result<Readings, ReadError>
    decreases |text|
  {
    if text == [] then Ok(out) else
    var i := IndexOf(text, '\n');
    if i >= MAX_LINE then Err(LineTooLong) else
    var rest := if i < |text| then text[i + 1..] else [];
    match MeaningOf(pf, text[..i])
    case Ignored => ReadFrom(pf, rest, out)
    case Malformed => Err(BadFloat)
    case Reading(k, v) => ReadFrom(pf, rest, out[k := v])
  }

  method ParseTextToMap(pf: FloatParser, text: string) returns (r: Result<Readings, ReadError>)
    ensures r == ReadFrom(pf, text, map[])
  {
    var out: Readings := map[];
    var rest := text;
    while rest != []
      invariant ReadFrom(pf, text, map[]) == ReadFrom(pf, rest, out)
      decreases |rest|
    {
      var i := IndexOf(rest, '\n');
      if i >= MAX_LINE {
        return Err(LineTooLong);
      }
      var line := TrimSpace(DropCR(rest[..i]));
      rest := if i < |rest| then rest[i + 1..] else [];
      if line == "" || HasPrefix(line, "#") {
        continue;
      }
      var split := SplitMetricLine(line);
      if split.None? {
        continue;
      }
      var key := Canonicalize(split.value.0);
      if key.Err? {
        continue;
      }
      var tok := FirstField(split.value.1);
      if tok.None? {
        continue;
      }
      var v := pf(tok.value);
      if v.None? {
        return Err(BadFloat);
      }
      out := out[key.value := v.value];
    }
    return Ok(out);
  }
}
