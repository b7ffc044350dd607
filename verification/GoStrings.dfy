/**
 The string operations of Go that the modelled code calls.  A Go string is a sequence of bytes; it is
 modelled as a `string` with one character per byte, so `|s|` is Go's `len(s)`.  No statement in this
 project limits the range of the characters, so each one holds in particular for bytes.
 */
module GoStrings {

  datatype Option<+T> = None | Some(value: T)

  datatype Result<+T, +E> = Ok(value: T) | Err(error: E)

  // ----- order -----

  /** Go's `<=` on strings: byte-wise lexicographic order. */
  predicate StrLe(a: string, b: string)
  {
    a == [] || (b != [] && (a[0] < b[0] || (a[0] == b[0] && StrLe(a[1..], b[1..]))))
  }

  lemma {:induction false} StrLeReflexive(a: string)
    ensures StrLe(a, a)
  {
    if a != [] { StrLeReflexive(a[1..]); }
  }

  lemma {:induction false} StrLeTotal(a: string, b: string)
    ensures StrLe(a, b) || StrLe(b, a)
  {
    if a != [] && b != [] && a[0] == b[0] { StrLeTotal(a[1..], b[1..]); }
  }

  lemma {:induction false} StrLeAntisymmetric(a: string, b: string)
    requires StrLe(a, b) && StrLe(b, a)
    ensures a == b
  {
    if a != [] {
      StrLeAntisymmetric(a[1..], b[1..]);
      assert a == [a[0]] + a[1..] && b == [b[0]] + b[1..];
    }
  }

  lemma {:induction false} StrLeTransitive(a: string, b: string, c: string)
    requires StrLe(a, b) && StrLe(b, c)
    ensures StrLe(a, c)
  {
    if a != [] && a[0] == b[0] && b[0] == c[0] { StrLeTransitive(a[1..], b[1..], c[1..]); }
  }

  lemma {:induction false} StrLePrefix(p: string, a: string, b: string)
    requires StrLe(a, b)
    ensures StrLe(p + a, p + b)
  {
    if p == [] {
      assert p + a == a && p + b == b;
    } else {
      StrLePrefix(p[1..], a, b);
      assert (p + a)[1..] == p[1..] + a && (p + b)[1..] == p[1..] + b;
    }
  }

  // ----- white space -----

  predicate AsciiSpace(c: char)
  {
    c == ' ' || c == '\t' || c == '\n' || c == '\U{0B}' || c == '\U{0C}' || c == '\r'
  }

  /** The bytes are the UTF-8 encoding of one of the two-byte white space code points that
      `unicode.IsSpace` accepts. */
  predicate WideSpace2(a: char, b: char)
  {
    a == '\U{C2}' && (b == '\U{85}' || b == '\U{A0}')
  }

  /** The same for the three-byte code points. */
  predicate WideSpace3(a: char, b: char, c: char)
  {
    || (a == '\U{E1}' && b == '\U{9A}' && c == '\U{80}')
    || (a == '\U{E2}' && b == '\U{80}' &&
        ('\U{80}' <= c <= '\U{8A}' || c == '\U{A8}' || c == '\U{A9}' || c == '\U{AF}'))
    || (a == '\U{E2}' && b == '\U{81}' && c == '\U{9F}')
    || (a == '\U{E3}' && b == '\U{80}' && c == '\U{80}')
  }

  /** Width in bytes of the white space rune at the front of `s`, 0 when there is none. */
  function LeadingSpace(s: string): (w: nat)
    ensures w <= |s|
  {
    if |s| >= 1 && AsciiSpace(s[0]) then 1
    else if |s| >= 2 && WideSpace2(s[0], s[1]) then 2
    else if |s| >= 3 && WideSpace3(s[0], s[1], s[2]) then 3
    else 0
  }

  /** Width in bytes of the white space rune at the end of `s`, 0 when there is none. */
  function TrailingSpace(s: string): (w: nat)
    ensures w <= |s|
  {
    var n := |s|;
    if n >= 1 && AsciiSpace(s[n - 1]) then 1
    else if n >= 2 && WideSpace2(s[n - 2], s[n - 1]) then 2
    else if n >= 3 && WideSpace3(s[n - 3], s[n - 2], s[n - 1]) then 3
    else 0
  }

  function TrimLeft(s: string): string
    decreases |s|
  {
    if LeadingSpace(s) == 0 then s else TrimLeft(s[LeadingSpace(s)..])
  }

  function TrimRight(s: string): string
    decreases |s|
  {
    if TrailingSpace(s) == 0 then s else TrimRight(s[..|s| - TrailingSpace(s)])
  }

  /** `strings.TrimSpace`. */
  function TrimSpace(s: string): string
  {
    TrimRight(TrimLeft(s))
  }

  /** A printable ASCII character other than the blank. */
  predicate Graphic(c: char)
  {
    '!' <= c <= '~'
  }

  lemma TrimSpaceKeeps(s: string)
    requires s != [] && Graphic(s[0]) && Graphic(s[|s| - 1])
    ensures TrimSpace(s) == s
  {
    assert LeadingSpace(s) == 0 == TrailingSpace(s);
    assert TrimLeft(s) == s;
  }

  /** Trimming on the right stops at the last graphic character. */
  lemma {:induction false} TrimRightKeeps(a: string, b: string) returns (b': string)
    requires a != [] && Graphic(a[|a| - 1])
    ensures TrimRight(a + b) == a + b' && b' <= b
    decreases |b|
  {
    var s := a + b;
    var w := TrailingSpace(s);
    assert s[|a| - 1] == a[|a| - 1];
    if b == [] || w == 0 {
      b' := b;
    } else {
      assert w <= |b|;
      var c := b[..|b| - w];
      assert s[..|s| - w] == a + c;
      b' := TrimRightKeeps(a, c);
    }
  }

  lemma NotBlankStart(s: string)
    requires s != [] && Graphic(s[0])
    ensures TrimSpace(s) != ""
  {
    assert s == s[..1] + s[1..];
    var t := TrimRightKeeps(s[..1], s[1..]);
  }

  /** `strings.ToLower` on ASCII letters; `strings.EqualFold` compares the two images. */
  function Lower(s: string): (r: string)
    ensures |r| == |s|
  {
    seq(|s|, i requires 0 <= i < |s| => if 'A' <= s[i] <= 'Z' then (s[i] as int + 32) as char else s[i])
  }

  predicate EqualFold(a: string, b: string)
  {
    Lower(a) == Lower(b)
  }

  // ----- prefixes and positions -----

  predicate HasPrefix(s: string, p: string)
  {
    p <= s
  }

  /** `strings.IndexByte`, with `|s|` for "not found". */
  function IndexOf(s: string, c: char): (i: nat)
    ensures i <= |s|
    ensures forall j :: 0 <= j < i ==> s[j] != c
    ensures i < |s| ==> s[i] == c
  {
    if s == [] || s[0] == c then 0 else 1 + IndexOf(s[1..], c)
  }

  lemma IndexOfSplit(a: string, c: char, b: string)
    requires c !in a
    ensures IndexOf(a + [c] + b, c) == |a|
  {
    var s := a + [c] + b;
    assert s[|a|] == c;
    assert forall j :: 0 <= j < |a| ==> s[j] == a[j];
  }

  // ----- decimal numbers -----

  /** `fmt.Sprintf("%d", n)` for a non-negative n. */
  function Itoa(n: nat): (r: string)
    ensures r != []
    ensures forall c :: c in r ==> '0' <= c <= '9'
  {
    if n < 10 then [('0' as int + n) as char] else Itoa(n / 10) + [('0' as int + n % 10) as char]
  }

  function Atoi(s: string): int
  {
    if s == [] then 0 else 10 * Atoi(s[..|s| - 1]) + (s[|s| - 1] as int - '0' as int)
  }

  lemma {:induction false} AtoiItoa(n: nat)
    ensures Atoi(Itoa(n)) == n
  {
    if n < 10 {
      assert Itoa(n)[..0] == [];
    } else {
      AtoiItoa(n / 10);
      assert Itoa(n)[..|Itoa(n)| - 1] == Itoa(n / 10);
    }
  }

  lemma ItoaInjective(a: nat, b: nat)
    requires Itoa(a) == Itoa(b)
    ensures a == b
  {
    AtoiItoa(a);
    AtoiItoa(b);
  }
}
