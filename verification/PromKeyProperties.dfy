/** What the key parser and the key formatter owe each other. */
module PromKeyProperties {
  import opened GoStrings
  import opened Sorting
  import opened PromKey

  // ----- quoted values -----

  lemma CutQuotedPlain(c: char, t: string)
    requires c != '\\' && c != '\"'
    ensures CutQuoted([c] + t) == PrependRaw([c], CutQuoted(t))
  {
    assert ([c] + t)[1..] == t && ([c] + t)[..1] == [c];
  }

  lemma CutQuotedPair(x: char, t: string)
    ensures CutQuoted(['\\', x] + t) == PrependRaw(['\\', x], CutQuoted(t))
  {
    assert (['\\', x] + t)[2..] == t && (['\\', x] + t)[..2] == ['\\', x];
  }

  lemma CutQuotedByte(c: char, t: string)
    ensures CutQuoted(EscapedByte(c) + t) == PrependRaw(EscapedByte(c), CutQuoted(t))
  {
    EscapedByteShape(c);
    hide EscapedByte, UnescapedByte, CutQuoted;
    var e := EscapedByte(c);
    if |e| == 1 {
      CutQuotedPlain(c, t);
    } else {
      CutQuotedPair(e[1], t);
    }
  }

  lemma {:induction false} CutQuotedEscape(v: string, rest: string)
    ensures CutQuoted(Escaped(v) + "\"" + rest) == Ok((Escaped(v), rest))
  {
    hide EscapedByte;
    var q := "\"" + rest;
    if v == [] {
      assert "" + "\"" + rest == q && q[1..] == rest;
    } else {
      hide CutQuoted;
      var e, t := EscapedByte(v[0]), Escaped(v[1..]);
      assert Escaped(v) == e + t;
      hide Escaped;
      CutQuotedEscape(v[1..], rest);
      CutQuotedByte(v[0], t + "\"" + rest);
      assert Escaped(v) + "\"" + rest == e + (t + "\"" + rest);
    }
  }

  /** The raw text cut out of a quoted value never ends in a lone backslash. */
  lemma {:induction false} CutQuotedUnescapes(s: string)
    requires CutQuoted(s).Ok?
    ensures Unescaped(CutQuoted(s).value.0).Some?
  {
    if s[0] == '\"' {
    } else if s[0] == '\\' {
      CutQuotedUnescapes(s[2..]);
      var raw := CutQuoted(s[2..]).value.0;
      assert (s[..2] + raw)[2..] == raw;
    } else {
      CutQuotedUnescapes(s[1..]);
      var raw := CutQuoted(s[1..]).value.0;
      assert (s[..1] + raw)[1..] == raw;
    }
  }

  lemma {:induction false} ParsedLabelsNeverDangle(s: string, acc: Labels)
    ensures ParsedLabels(s, acc) != Err(DanglingEscape)
    decreases |s|
  {
    var t := SkipDelims(s);
    if t != [] && IndexOf(t, '=') < |t| {
      var u := SkipBlanks(t[IndexOf(t, '=') + 1..]);
      if u != [] && u[0] == '\"' && CutQuoted(u[1..]).Ok? {
        CutQuotedUnescapes(u[1..]);
        var (raw, rest) := CutQuoted(u[1..]).value;
        ParsedLabelsNeverDangle(rest, acc[TrimSpace(t[..IndexOf(t, '=')]) := Unescaped(raw).value]);
      }
    }
  }

  /** The error return of UnescapeLabelValue inside parseLabels is dead code. */
  lemma UnescapeErrorUnreachable(token: string)
    ensures Parsed(token) != Err(DanglingEscape)
  {
    var t := TrimSpace(token);
    if t != [] && IndexOf(t, '{') < |t| && t[|t| - 1] == '}' {
      ParsedLabelsNeverDangle(t[IndexOf(t, '{') + 1..|t| - 1], map[]);
    }
  }

  // ----- parse after format -----

  lemma ValidLabelNameFacts(k: string)
    requires ValidLabelName(k)
    ensures '=' !in k && k[0] != ' ' && k[0] != ','
    ensures TrimSpace(k) == k
  {
    assert k[|k| - 1] in k;
    TrimSpaceKeeps(k);
  }

  lemma PairShape(k: string, v: string, r: string)
    ensures Pair(k, v) + r == k + ['='] + ("\"" + (Escaped(v) + "\"" + r))
  {
    hide Escaped;
  }

  /** What the parser makes of a printed label name: leading delimiters and outer white space go. */
  function Cleaned(k: string): string
  {
    TrimSpace(SkipDelims(k))
  }

  lemma {:induction false} SkipDelimsName(k: string, rest: string)
    ensures SkipDelims(k + "=" + rest) == SkipDelims(k) + "=" + rest
  {
    var s := k + "=" + rest;
    if k == "" {
      assert s[0] == '=';
    } else if k[0] == ' ' || k[0] == ',' {
      assert s[1..] == k[1..] + "=" + rest;
      SkipDelimsName(k[1..], rest);
    }
  }

  lemma {:induction false} SkipDelimsKeepsOut(k: string, c: char)
    requires c !in k
    ensures c !in SkipDelims(k)
  {
    if k != "" && (k[0] == ' ' || k[0] == ',') { SkipDelimsKeepsOut(k[1..], c); }
  }

  /** One unfolding of ParsedLabels on a text that starts with a name, `=` and a quote. */
  lemma ParseNamed(k: string, q: string, acc: Labels)
    requires '=' !in k && CutQuoted(q).Ok?
    requires Unescaped(CutQuoted(q).value.0).Some?
    ensures ParsedLabels(k + "=" + ("\"" + q), acc) ==
      ParsedLabels(CutQuoted(q).value.1, acc[Cleaned(k) := Unescaped(CutQuoted(q).value.0).value])
  {
    hide CutQuoted, Unescaped, IndexOf, TrimSpace, SkipDelims;
    SkipDelimsName(k, "\"" + q);
    SkipDelimsKeepsOut(k, '=');
    var d := SkipDelims(k);
    var t := d + "=" + ("\"" + q);
    IndexOfSplit(d, '=', "\"" + q);
    assert t[..|d|] == d;
    assert t[|d| + 1..] == "\"" + q;
    assert SkipBlanks("\"" + q) == "\"" + q;
    assert ("\"" + q)[1..] == q;
  }

  lemma ParsePair(k: string, v: string, rest: string, acc: Labels)
    requires '=' !in k
    ensures ParsedLabels(Pair(k, v) + rest, acc) == ParsedLabels(rest, acc[Cleaned(k) := v])
  {
    hide ParsedLabels, CutQuoted, Unescaped, Escaped, Pair, Cleaned;
    PairShape(k, v, rest);
    CutQuotedEscape(v, rest);
    UnescapeEscape(v);
    ParseNamed(k, Escaped(v) + "\"" + rest, acc);
  }

  /** The labels that the parser reads back from the printed pairs of `ks`. */
  function Reread(acc: Labels, ks: seq<string>, labels: Labels): Labels
    requires forall k :: k in ks ==> k in labels
    decreases |ks|
  {
    if ks == [] then acc else Reread(acc[Cleaned(ks[0]) := labels[ks[0]]], ks[1..], labels)
  }

  lemma SkipComma(body: string, acc: Labels)
    ensures ParsedLabels("," + body, acc) == ParsedLabels(body, acc)
  {
    assert ("," + body)[1..] == body;
    assert SkipDelims("," + body) == SkipDelims(body);
    hide SkipDelims, IndexOf, TrimSpace, CutQuoted, Unescaped, SkipBlanks;
  }

  lemma {:induction false} ParseTail(ks: seq<string>, labels: Labels, acc: Labels)
    requires forall k :: k in ks ==> k in labels && '=' !in k
    ensures ParsedLabels(Tail(ks, labels), acc) == Ok(Reread(acc, ks, labels))
    decreases |ks|
  {
    if ks == [] {
      NothingParsed(acc);
    } else {
      hide ParsedLabels, Pair, Cleaned;
      var k, v := ks[0], labels[ks[0]];
      var rest := Tail(ks[1..], labels);
      ParseTail(ks[1..], labels, acc[Cleaned(k) := v]);
      ParsePair(k, v, rest, acc);
      SkipComma(Pair(k, v) + rest, acc);
      assert Tail(ks, labels) == "," + (Pair(k, v) + rest);
    }
  }

  lemma NothingParsed(acc: Labels)
    ensures ParsedLabels("", acc) == Ok(acc)
  {
  }

  lemma ParseBlock(labels: Labels)
    requires forall k :: k in labels ==> '=' !in k
    ensures ParsedLabels(Block(LabelOrder(labels), labels), map[]) == Ok(Reread(map[], LabelOrder(labels), labels))
  {
    hide ParsedLabels, LabelOrder, Cleaned;
    var ks := LabelOrder(labels);
    if ks == [] {
      NothingParsed(map[]);
    } else {
      ParsePair(ks[0], labels[ks[0]], Tail(ks[1..], labels), map[]);
      ParseTail(ks[1..], labels, map[Cleaned(ks[0]) := labels[ks[0]]]);
      assert map[][Cleaned(ks[0]) := labels[ks[0]]] == map[Cleaned(ks[0]) := labels[ks[0]]];
    }
  }

  lemma {:induction false} RereadKeys(acc: Labels, ks: seq<string>, labels: Labels)
    requires forall k :: k in ks ==> k in labels
    ensures forall x :: x in Reread(acc, ks, labels) <==> x in acc || exists k :: k in ks && Cleaned(k) == x
    decreases |ks|
  {
    hide Cleaned;
    if ks != [] {
      RereadKeys(acc[Cleaned(ks[0]) := labels[ks[0]]], ks[1..], labels);
      assert ks == [ks[0]] + ks[1..];
    }
  }

  /** Names that cleaning leaves alone are read back with their values. */
  lemma {:induction false} RereadKeeps(acc: Labels, ks: seq<string>, labels: Labels)
    requires forall k :: k in ks ==> k in labels && Cleaned(k) == k
    ensures Reread(acc, ks, labels) == acc + (map k | k in ks :: labels[k])
    decreases |ks|
  {
    hide Cleaned;
    if ks != [] {
      RereadKeeps(acc[ks[0] := labels[ks[0]]], ks[1..], labels);
      hide Reread;
      OverlayStep(acc, ks, labels);
    }
  }

  lemma OverlayStep(acc: Labels, ks: seq<string>, labels: Labels)
    requires ks != [] && forall k :: k in ks ==> k in labels
    ensures acc + (map k | k in ks :: labels[k]) ==
      acc[ks[0] := labels[ks[0]]] + (map k | k in ks[1..] :: labels[k])
  {
    assert ks == [ks[0]] + ks[1..];
  }

  lemma CleanedShorter(k: string)
    ensures |Cleaned(k)| <= |k|
    ensures k != "" && k[0] == ',' ==> |Cleaned(k)| < |k|
    ensures TrimSpace(k) == k && (k == "" || k[0] != ',') ==> Cleaned(k) == k
  {
    TrimShortens(SkipDelims(k));
    if k != "" && k[0] == ' ' { BlankFrontTrims(k); }
    hide TrimSpace;
  }

  lemma {:induction false} TrimLeftShortens(s: string)
    ensures |TrimLeft(s)| <= |s|
    decreases |s|
  {
    if LeadingSpace(s) != 0 { TrimLeftShortens(s[LeadingSpace(s)..]); }
  }

  lemma {:induction false} TrimRightShortens(s: string)
    ensures |TrimRight(s)| <= |s|
    ensures TrimRight(s) <= s
    ensures TrailingSpace(TrimRight(s)) == 0
    decreases |s|
  {
    if TrailingSpace(s) != 0 { TrimRightShortens(s[..|s| - TrailingSpace(s)]); }
  }

  lemma TrimShortens(s: string)
    ensures |TrimSpace(s)| <= |s|
  {
    TrimLeftShortens(s);
    TrimRightShortens(TrimLeft(s));
  }

  lemma BlankFrontTrims(s: string)
    requires s != "" && s[0] == ' '
    ensures TrimSpace(s) != s
  {
    assert LeadingSpace(s) == 1;
    TrimLeftShortens(s[1..]);
    TrimRightShortens(TrimLeft(s));
  }

  /** Some longest element with a leading comma. */
  lemma {:induction false} LongestComma(ks: seq<string>) returns (k: string)
    requires exists x :: x in ks && x != "" && x[0] == ','
    ensures k in ks && k != "" && k[0] == ','
    ensures forall x :: x in ks && x != "" && x[0] == ',' ==> |x| <= |k|
  {
    assert ks == [ks[0]] + ks[1..];
    if exists x :: x in ks[1..] && x != "" && x[0] == ',' {
      k := LongestComma(ks[1..]);
      if ks[0] != "" && ks[0][0] == ',' && |ks[0]| > |k| {
        k := ks[0];
      }
    } else {
      k := ks[0];
    }
  }

  /** The labels are read back exactly iff no name starts with a comma. */
  lemma RereadExact(labels: Labels, ks: seq<string>)
    requires forall k :: k in ks <==> k in labels
    requires forall k :: k in labels ==> TrimSpace(k) == k
    ensures Reread(map[], ks, labels) == labels <==> forall k :: k in labels ==> k == "" || k[0] != ','
  {
    hide TrimSpace, Cleaned;
    forall k ensures CleanedFacts(k) { CleanedShorter(k); }
    if forall k :: k in labels ==> k == "" || k[0] != ',' {
      forall k | k in ks ensures Cleaned(k) == k { assert CleanedFacts(k); }
      RereadKeeps(map[], ks, labels);
      assert map[] + (map k | k in ks :: labels[k]) == labels;
    } else {
      var k := LongestComma(ks);
      RereadKeys(map[], ks, labels);
      forall j | j in ks ensures Cleaned(j) != k {
        assert CleanedFacts(j);
      }
      assert k in labels && k !in Reread(map[], ks, labels);
    }
  }

  ghost predicate CleanedFacts(k: string)
  {
    && |Cleaned(k)| <= |k|
    && (k != "" && k[0] == ',' ==> |Cleaned(k)| < |k|)
    && (TrimSpace(k) == k && (k == "" || k[0] != ',') ==> Cleaned(k) == k)
  }

  lemma ValidMetricNameFacts(s: string)
    requires ValidMetricName(s)
    ensures '{' !in s && Graphic(s[0]) && Graphic(s[|s| - 1]) && s[0] != '#'
    ensures ' ' !in s && '\t' !in s && '\n' !in s && '\r' !in s
  {
    assert s[|s| - 1] in s;
  }

  // ----- trimmed text -----

  /** White space at the front of a prefix is white space at the front of the whole. */
  lemma LeadingPrefix(p: string, s: string)
    requires p <= s && LeadingSpace(s) == 0
    ensures LeadingSpace(p) == 0
  {
  }

  lemma LeadingBrace(name: string, rest: string)
    requires LeadingSpace(name + "{") == 0
    ensures LeadingSpace(name + "{" + rest) == 0
  {
    var s := name + "{" + rest;
    assert s[|name|] == '{';
    assert forall i :: 0 <= i <= |name| ==> s[i] == (name + "{")[i];
  }

  lemma {:induction false} TrimLeftStops(s: string)
    ensures LeadingSpace(TrimLeft(s)) == 0
    decreases |s|
  {
    if LeadingSpace(s) != 0 { TrimLeftStops(s[LeadingSpace(s)..]); }
  }

  lemma TrimSpaceEnds(s: string)
    ensures LeadingSpace(TrimSpace(s)) == 0 && TrailingSpace(TrimSpace(s)) == 0
  {
    TrimLeftStops(s);
    TrimRightShortens(TrimLeft(s));
    hide LeadingSpace, TrailingSpace, TrimLeft, TrimRight;
    LeadingPrefix(TrimRight(TrimLeft(s)), TrimLeft(s));
  }

  lemma TrimNothing(s: string)
    requires LeadingSpace(s) == 0 && TrailingSpace(s) == 0
    ensures TrimSpace(s) == s
  {
    hide LeadingSpace, TrailingSpace;
  }

  lemma TrimTwice(s: string)
    ensures TrimSpace(TrimSpace(s)) == TrimSpace(s)
  {
    TrimSpaceEnds(s);
    TrimNothing(TrimSpace(s));
    hide TrimSpace;
  }

  // ----- the round trip, exactly -----

  /** What every parsed series satisfies, however odd the token was: no brace and no outer white space
      before the name, and trimmed label names without an equals sign. */
  ghost predicate TokenSeries(s: Series)
  {
    ParseImage(s) && LeadingSpace(s.name + "{") == 0 && forall k :: k in s.labels ==> TrimSpace(k) == k
  }

  /** Printing and reading back changes nothing: a bare name is trimmed and not empty, and with labels no
      label name starts with a comma. */
  predicate Settled(s: Series)
  {
    if s.labels == map[] then s.name != "" && TrimSpace(s.name) == s.name
    else forall k :: k in s.labels ==> k == "" || k[0] != ','
  }

  lemma ParseBare(name: string)
    requires '{' !in name
    ensures TrimSpace(name) == "" ==> Parsed(name).Err?
    ensures TrimSpace(name) != "" ==> Parsed(name) == Ok(Series(TrimSpace(name), map[]))
  {
    TrimKeepsOut(name, '{');
    hide TrimSpace;
    assert IndexOf(TrimSpace(name), '{') == |TrimSpace(name)|;
  }

  lemma ParseLabelled(name: string, block: string)
    requires '{' !in name && LeadingSpace(name + "{") == 0
    ensures Parsed(name + "{" + block + "}") == match ParsedLabels(block, map[])
      case Err(e) => Err(e)
      case Ok(labels) => Ok(Series(name, labels))
  {
    var t := name + "{" + block + "}";
    LabelledText(name, block);
    TrimNothing(t);
    hide TrimSpace, ParsedLabels, LeadingSpace, TrailingSpace, IndexOf;
  }

  lemma LabelledText(name: string, block: string)
    requires '{' !in name && LeadingSpace(name + "{") == 0
    ensures var t := name + "{" + block + "}";
      && LeadingSpace(t) == 0 && TrailingSpace(t) == 0 && t[|t| - 1] == '}'
      && IndexOf(t, '{') == |name| && t[..|name|] == name && t[|name| + 1..|t| - 1] == block
  {
    var t := name + "{" + block + "}";
    assert TrailingSpace(t) == 0;
    hide TrailingSpace, LeadingSpace, IndexOf;
    assert t == name + "{" + (block + "}");
    LeadingBrace(name, block + "}");
    IndexOfSplit(name, '{', block + "}");
  }

  /** For everything that the parser can yield: formatting and parsing gives the series back iff it is
      settled. */
  lemma ReparseExact(s: Series)
    requires TokenSeries(s)
    ensures Parsed(Formatted(s)) == Ok(s) <==> Settled(s)
  {
    hide TrimSpace, Parsed, ParsedLabels, Reread, LeadingSpace;
    if s.labels == map[] {
      ParseBare(s.name);
    } else {
      var ks := LabelOrder(s.labels);
      ParseLabelled(s.name, Block(ks, s.labels));
      ParseBlock(s.labels);
      RereadExact(s.labels, ks);
    }
  }

  lemma ValidIsSettled(s: Series)
    requires ValidSeries(s)
    ensures TokenSeries(s) && Settled(s)
  {
    ValidMetricNameFacts(s.name);
    TrimSpaceKeeps(s.name);
    forall k | k in s.labels ensures '=' !in k && TrimSpace(k) == k && k[0] != ',' { ValidLabelNameFacts(k); }
    assert LeadingSpace(s.name + "{") == 0;
    hide TrimSpace;
  }

  /** Round trip: formatting a valid series and parsing the key gives the series back, whatever bytes its
      label values hold. */
  lemma ParseFormat(s: Series)
    requires ValidSeries(s)
    ensures Parsed(Formatted(s)) == Ok(s)
  {
    ValidIsSettled(s);
    hide TokenSeries, Settled, Parsed;
    ReparseExact(s);
  }

  lemma OneLabel(k: string, v: string)
    requires ValidLabelName(k)
    ensures ParsedLabels(Pair(k, v), map[]) == Ok(map[k := v]) == ParsedLabels(Pair(k, v) + ",", map[])
  {
    ValidLabelNameFacts(k);
    CleanedShorter(k);
    hide *;
    var p, labels := Pair(k, v), map[][k := v];
    ParsePair(k, v, "", map[]);
    ParsePair(k, v, ",", map[]);
    NothingParsed(labels);
    SkipComma("", labels);
    assert labels == map[k := v] && p + "" == p && "," + "" == ",";
  }

  /** Canonicalising twice is canonicalising once exactly on the tokens whose series is settled. */
  lemma CanonicalIdempotentExact(token: string)
    requires Parsed(token).Ok?
    ensures Canonical(Canonical(token).value) == Canonical(token) <==> Settled(Parsed(token).value)
  {
    var s := Parsed(token).value;
    ParsedTokenSeries(token);
    ReparseExact(s);
    var again := Parsed(Formatted(s));
    if again.Ok? {
      ParsedImage(Formatted(s));
      if Formatted(again.value) == Formatted(s) {
        FormatInjective(again.value, s);
      }
    }
    hide Parsed, Settled, Formatted;
  }

  /** In particular on every token that names a valid series. */
  lemma CanonicalIdempotent(token: string)
    requires Parsed(token).Ok? && ValidSeries(Parsed(token).value)
    ensures Canonical(Canonical(token).value) == Canonical(token)
  {
    ValidIsSettled(Parsed(token).value);
    hide Parsed, TokenSeries, Settled, Canonical;
    CanonicalIdempotentExact(token);
  }

  lemma TrimOneBlank()
    ensures TrimSpace("m ") == "m"
  {
    assert LeadingSpace("m ") == 0;
    assert TrimLeft("m ") == "m ";
    assert TrailingSpace("m ") == 1;
    assert "m "[..1] == "m";
    assert TrailingSpace("m") == 0;
    assert TrimRight("m") == "m";
  }

  /** One label, printed. */
  function OneLabelText(k: string): string
  {
    "m{" + Pair(k, "1") + "}"
  }

  lemma PrintedOnce(k: string)
    ensures Formatted(Series("m", map[k := "1"])) == OneLabelText(k)
  {
    hide Pair;
    var labels: Labels := map[k := "1"];
    var ks := LabelOrder(labels);
    assert k in labels && k in ks;
    assert forall i :: 0 <= i < |ks| ==> ks[i] in ks;
    OneKey(labels, k);
    assert ks[1..] == [];
    assert "m" + "{" == "m{";
  }

  lemma OneKey(labels: Labels, k: string)
    requires labels.Keys == {k}
    ensures LabelOrder(labels) == [k]
  {
    var ks := LabelOrder(labels);
    assert |ks| == |labels.Keys| == 1;
    assert ks[0] in ks;
  }

  /** What the parser and the printer make of a label name without an equals sign. */
  lemma CanonicalOfLabel(k: string)
    requires '=' !in k
    ensures Canonical(OneLabelText(k)) == Ok(OneLabelText(Cleaned(k)))
  {
    hide *;
    var c := Cleaned(k);
    ReadOnce(k);
    ParseLabelled("m", Pair(k, "1"));
    OneLabelSplit(k);
    PrintedOnce(c);
    CanonicalFrom(OneLabelText(k), Series("m", map[c := "1"]));
  }

  lemma ReadOnce(k: string)
    requires '=' !in k
    ensures ParsedLabels(Pair(k, "1"), map[]) == Ok(map[Cleaned(k) := "1"])
    ensures LeadingSpace("m" + "{") == 0
  {
    hide Pair, ParsedLabels, Cleaned;
    ParsePair(k, "1", "", map[]);
    NothingParsed(map[][Cleaned(k) := "1"]);
    assert Pair(k, "1") + "" == Pair(k, "1") && map[][Cleaned(k) := "1"] == map[Cleaned(k) := "1"];
  }

  lemma OneLabelSplit(k: string)
    ensures OneLabelText(k) == "m" + "{" + Pair(k, "1") + "}" && '{' !in "m"
  {
    hide Pair;
    assert "m" + "{" == "m{";
  }

  lemma CanonicalFrom(token: string, s: Series)
    requires Parsed(token) == Ok(s)
    ensures Canonical(token) == Ok(Formatted(s))
  {
    hide Parsed, Formatted;
  }

  lemma CommaNames()
    ensures Cleaned("\t,a") == ",a" && Cleaned(",a") == "a" && '=' !in "\t,a" && '=' !in ",a"
  {
    assert SkipDelims("\t,a") == "\t,a";
    assert LeadingSpace("\t,a") == 1 && "\t,a"[1..] == ",a";
    TrimSpaceKeeps(",a");
    assert TrimLeft("\t,a") == TrimLeft(",a");
    assert ",a"[1..] == "a" && SkipDelims("a") == "a";
    TrimSpaceKeeps("a");
  }

  /** It is not idempotent on every token: `m {}` becomes `m` and a blank, and that becomes `m`.  A tab before a
      comma hides the comma once: the label name `a` comes back as `,a`, and then as `a`. */
  lemma CanonicalNotIdempotentOnOddNames()
    ensures Canonical("m {}") == Ok("m ")
    ensures Canonical("m ") == Ok("m")
    ensures Canonical("m{\t,a=\"1\"}") == Ok("m{,a=\"1\"}")
    ensures Canonical("m{,a=\"1\"}") == Ok("m{a=\"1\"}")
  {
    CanonicalOnTrailingBlank();
    CommaNames();
    LabelTexts();
    hide *;
    CanonicalOfLabel("\t,a");
    CanonicalOfLabel(",a");
  }

  lemma LabelTexts()
    ensures OneLabelText("\t,a") == "m{\t,a=\"1\"}" && OneLabelText(",a") == "m{,a=\"1\"}"
    ensures OneLabelText("a") == "m{a=\"1\"}"
  {
    assert EscapedByte('1') == "1";
    assert Escaped("1") == "1" by { assert "1"[1..] == ""; }
    hide Escaped;
  }

  lemma CanonicalOnTrailingBlank()
    ensures Canonical("m {}") == Ok("m ")
    ensures Canonical("m ") == Ok("m")
  {
    TrimSpaceKeeps("m {}");
    IndexOfSplit("m ", '{', "}");
    assert "m " + ['{'] + "}" == "m {}";
    assert "m {}"[..2] == "m " && "m {}"[3..3] == "";
    TrimOneBlank();
    assert Parsed("m {}") == Ok(Series("m ", map[]));
    assert IndexOf("m", '{') == 1;
    assert Parsed("m ") == Ok(Series("m", map[]));
  }

  // ----- formatting loses nothing -----

  /** What every parsed series satisfies, however odd the token was. */
  predicate ParseImage(s: Series)
  {
    '{' !in s.name && forall k :: k in s.labels ==> '=' !in k
  }

  lemma {:induction false} TrimKeepsOut(s: string, c: char)
    requires c !in s
    ensures c !in TrimSpace(s)
  {
    TrimLeftSuffix(s);
    TrimRightPrefix(TrimLeft(s));
  }

  lemma {:induction false} TrimLeftSuffix(s: string)
    ensures forall c :: c in TrimLeft(s) ==> c in s
    decreases |s|
  {
    if LeadingSpace(s) != 0 { TrimLeftSuffix(s[LeadingSpace(s)..]); }
  }

  lemma {:induction false} TrimRightPrefix(s: string)
    ensures forall c :: c in TrimRight(s) ==> c in s
    decreases |s|
  {
    if TrailingSpace(s) != 0 { TrimRightPrefix(s[..|s| - TrailingSpace(s)]); }
  }

  lemma {:induction false} ParsedLabelNames(s: string, acc: Labels)
    requires ParsedLabels(s, acc).Ok?
    requires forall k :: k in acc ==> '=' !in k && TrimSpace(k) == k
    ensures forall k :: k in ParsedLabels(s, acc).value ==> '=' !in k && TrimSpace(k) == k
    decreases |s|
  {
    var t := SkipDelims(s);
    if t != [] {
      var i := IndexOf(t, '=');
      TrimKeepsOut(t[..i], '=');
      TrimTwice(t[..i]);
      hide TrimSpace;
      var (raw, rest) := CutQuoted(SkipBlanks(t[i + 1..])[1..]).value;
      ParsedLabelNames(rest, acc[TrimSpace(t[..i]) := Unescaped(raw).value]);
    }
  }

  lemma ParsedTokenSeries(token: string)
    requires Parsed(token).Ok?
    ensures TokenSeries(Parsed(token).value)
  {
    TrimSpaceEnds(token);
    hide TrimSpace, LeadingSpace, TrailingSpace, ParsedLabels;
    var t := TrimSpace(token);
    var br := IndexOf(t, '{');
    if br < |t| {
      ParsedLabelNames(t[br + 1..|t| - 1], map[]);
      assert t[..br] + "{" == t[..br + 1];
      LeadingPrefix(t[..br + 1], t);
    } else {
      LeadingBare(t);
    }
  }

  lemma LeadingBare(t: string)
    requires LeadingSpace(t) == 0
    ensures LeadingSpace(t + "{") == 0
  {
  }

  lemma ParsedImage(token: string)
    requires Parsed(token).Ok?
    ensures ParseImage(Parsed(token).value)
  {
    ParsedTokenSeries(token);
    hide Parsed;
  }

  lemma CutAt(k1: string, r1: string, k2: string, r2: string, c: char)
    requires c !in k1 && c !in k2
    requires k1 + [c] + r1 == k2 + [c] + r2
    ensures k1 == k2 && r1 == r2
  {
    var s := k1 + [c] + r1;
    IndexOfSplit(k1, c, r1);
    IndexOfSplit(k2, c, r2);
    assert k1 == s[..|k1|] && k2 == s[..|k1|];
    assert r1 == s[|k1| + 1..] && r2 == s[|k1| + 1..];
  }

  lemma QuotedPrefix(v1: string, r1: string, v2: string, r2: string)
    requires Escaped(v1) + "\"" + r1 == Escaped(v2) + "\"" + r2
    ensures v1 == v2 && r1 == r2
  {
    CutQuotedEscape(v1, r1);
    CutQuotedEscape(v2, r2);
    EscapeInjective(v1, v2);
  }

  lemma PairPrefix(k1: string, v1: string, r1: string, k2: string, v2: string, r2: string)
    requires '=' !in k1 && '=' !in k2
    requires Pair(k1, v1) + r1 == Pair(k2, v2) + r2
    ensures k1 == k2 && v1 == v2 && r1 == r2
  {
    var q1, q2 := Escaped(v1) + "\"" + r1, Escaped(v2) + "\"" + r2;
    PairShape(k1, v1, r1);
    PairShape(k2, v2, r2);
    CutAt(k1, "\"" + q1, k2, "\"" + q2, '=');
    assert q1 == ("\"" + q1)[1..] && q2 == ("\"" + q2)[1..];
    QuotedPrefix(v1, r1, v2, r2);
  }

  ghost predicate SameLabels(ks: seq<string>, l1: Labels, l2: Labels)
  {
    forall k :: k in ks ==> k in l1 && k in l2 && l1[k] == l2[k]
  }

  lemma {:induction false} TailInjective(ks1: seq<string>, l1: Labels, ks2: seq<string>, l2: Labels)
    requires forall k :: k in ks1 ==> k in l1 && '=' !in k
    requires forall k :: k in ks2 ==> k in l2 && '=' !in k
    requires Tail(ks1, l1) == Tail(ks2, l2)
    ensures ks1 == ks2 && SameLabels(ks1, l1, l2)
    decreases |ks1|
  {
    if ks1 != [] && ks2 != [] {
      var b1 := Pair(ks1[0], l1[ks1[0]]) + Tail(ks1[1..], l1);
      var b2 := Pair(ks2[0], l2[ks2[0]]) + Tail(ks2[1..], l2);
      assert Tail(ks1, l1) == "," + b1 && Tail(ks2, l2) == "," + b2;
      hide Pair;
      assert b1 == Tail(ks1, l1)[1..] == Tail(ks2, l2)[1..] == b2;
      PairPrefix(ks1[0], l1[ks1[0]], Tail(ks1[1..], l1), ks2[0], l2[ks2[0]], Tail(ks2[1..], l2));
      TailInjective(ks1[1..], l1, ks2[1..], l2);
      assert ks1 == [ks1[0]] + ks1[1..] && ks2 == [ks2[0]] + ks2[1..];
    }
  }

  lemma TailIsBlock(ks: seq<string>, labels: Labels)
    requires ks != [] && forall k :: k in ks ==> k in labels
    ensures Tail(ks, labels) == "," + Block(ks, labels)
  {
  }

  lemma SameLabelsEverywhere(ks: seq<string>, l1: Labels, l2: Labels)
    requires forall k :: k in ks <==> k in l1
    requires forall k :: k in ks <==> k in l2
    requires SameLabels(ks, l1, l2)
    ensures l1 == l2
  {
  }

  lemma BlockInjective(l1: Labels, l2: Labels, ks1: seq<string>, ks2: seq<string>)
    requires forall k :: k in l1 ==> '=' !in k
    requires forall k :: k in l2 ==> '=' !in k
    requires ks1 != [] && forall k :: k in ks1 <==> k in l1
    requires ks2 != [] && forall k :: k in ks2 <==> k in l2
    requires Block(ks1, l1) == Block(ks2, l2)
    ensures l1 == l2
  {
    TailIsBlock(ks1, l1);
    TailIsBlock(ks2, l2);
    TailInjective(ks1, l1, ks2, l2);
    SameLabelsEverywhere(ks1, l1, l2);
  }

  lemma FormattedShape(s: Series)
    requires s.labels != map[]
    ensures Formatted(s) == s.name + ['{'] + (Block(LabelOrder(s.labels), s.labels) + "}")
  {
  }

  /** Two parsed tokens with one canonical key are the same series: canonical keys can stand for
      series identities even when the tokens are odd. */
  lemma FormatInjective(s1: Series, s2: Series)
    requires ParseImage(s1) && ParseImage(s2)
    requires Formatted(s1) == Formatted(s2)
    ensures s1 == s2
  {
    if s1.labels != map[] { FormattedShape(s1); }
    if s2.labels != map[] { FormattedShape(s2); }
    if s1.labels == map[] || s2.labels == map[] {
      OnlyLabelsBringBraces(s1);
      OnlyLabelsBringBraces(s2);
    } else {
      var ks1, ks2 := LabelOrder(s1.labels), LabelOrder(s2.labels);
      var b1, b2 := Block(ks1, s1.labels), Block(ks2, s2.labels);
      CutAt(s1.name, b1 + "}", s2.name, b2 + "}", '{');
      assert b1 == (b1 + "}")[..|b1|] && b2 == (b2 + "}")[..|b2|];
      BlockInjective(s1.labels, s2.labels, ks1, ks2);
    }
  }

  lemma OnlyLabelsBringBraces(s: Series)
    requires '{' !in s.name
    ensures '{' in Formatted(s) <==> s.labels != map[]
  {
    if s.labels != map[] {
      FormattedShape(s);
      assert Formatted(s)[|s.name|] == '{';
    }
  }
}
