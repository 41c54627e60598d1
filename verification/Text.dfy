/** Text: the order on strings, decimal numbers, and the two separator-based encodings that
    the canonical forms are built from. */
module Text {

  import opened Wrappers
  import Sorting

  /** Separator between a field name and its value, and between the parts of a preimage. */
  const US: char := 0x1f as char

  /** Terminator of a field. */
  const RS: char := 0x1e as char

  // ---------------------------------------------------------------- order

  predicate Less(a: string, b: string) {
    b != "" && (a == "" || a[0] < b[0] || (a[0] == b[0] && Less(a[1..], b[1..])))
  }

  /** At the first place where the texts differ, the lesser one ends or has the lesser character. */
  ghost predicate LessAt(a: string, b: string, k: nat) {
    && k <= |a| && k < |b| && a[..k] == b[..k]
    && (k < |a| ==> a[k] < b[k])
  }

  lemma {:induction false} LessIff(a: string, b: string)
    ensures Less(a, b) <==> exists k :: LessAt(a, b, k)
  {
    if a == "" || b == "" || a[0] != b[0] {
      if Less(a, b) {
        assert LessAt(a, b, 0);
      }
    } else {
      LessIff(a[1..], b[1..]);
      if k: nat :| LessAt(a[1..], b[1..], k) {
        assert a[..k + 1] == [a[0]] + a[1..][..k] && b[..k + 1] == [b[0]] + b[1..][..k];
        assert LessAt(a, b, k + 1);
      }
      if k: nat :| LessAt(a, b, k) {
        assert k > 0;
        assert a[1..][..k - 1] == a[..k][1..] && b[1..][..k - 1] == b[..k][1..];
        assert LessAt(a[1..], b[1..], k - 1);
      }
    }
  }

  lemma {:induction false} LessTotal(a: string, b: string)
    ensures a == b || Less(a, b) || Less(b, a)
  {
    if a == "" || b == "" || a[0] != b[0] {
    } else {
      LessTotal(a[1..], b[1..]);
      assert a == [a[0]] + a[1..] && b == [b[0]] + b[1..];
    }
  }

  lemma {:induction false} LessIrreflexive(a: string)
    ensures !Less(a, a)
  {
    if a == "" {
    } else {
      LessIrreflexive(a[1..]);
    }
  }

  lemma {:induction false} LessTransitive(a: string, b: string, c: string)
    requires Less(a, b) && Less(b, c)
    ensures Less(a, c)
  {
    if a == "" || !(a[0] == b[0] == c[0]) {
    } else {
      LessTransitive(a[1..], b[1..], c[1..]);
    }
  }

  lemma LessIsOrder()
    ensures Sorting.StrictOrder(Less) && Sorting.Total(Less)
  {
    forall x ensures !Less(x, x) { LessIrreflexive(x); }
    forall x, y, z | Less(x, y) && Less(y, z) ensures Less(x, z) { LessTransitive(x, y, z); }
    forall x, y ensures x == y || Less(x, y) || Less(y, x) { LessTotal(x, y); }
  }

  lemma Associative(a: string, b: string, c: string)
    ensures a + (b + c) == a + b + c
  {
  }

  // ---------------------------------------------------------------- characters

  predicate IsControl(c: char) {
    c < ' ' || c == 0x7f as char
  }

  predicate NoControl(s: string) {
    forall i :: 0 <= i < |s| ==> !IsControl(s[i])
  }

  /** Holds neither separator. */
  predicate Plain(s: string) {
    forall i :: 0 <= i < |s| ==> s[i] != US && s[i] != RS
  }

  lemma NoControlIsPlain(s: string)
    requires NoControl(s)
    ensures Plain(s)
  {
    assert IsControl(US) && IsControl(RS);
  }

  // ---------------------------------------------------------------- white space and case

  predicate IsSpace(c: char) {
    || '\t' <= c <= '\r'
    || c == ' ' || c == 0x85 as char || c == 0xa0 as char || c == 0x1680 as char
    || 0x2000 as char <= c <= 0x200a as char
    || c == 0x2028 as char || c == 0x2029 as char || c == 0x202f as char
    || c == 0x205f as char || c == 0x3000 as char
  }

  function Trim(s: string): string {
    if s != "" && IsSpace(s[0]) then Trim(s[1..])
    else if s != "" && IsSpace(s[|s| - 1]) then Trim(s[..|s| - 1])
    else s
  }

  predicate Trimmed(s: string) {
    s == "" || (!IsSpace(s[0]) && !IsSpace(s[|s| - 1]))
  }

  lemma {:induction false} TrimTrims(s: string)
    ensures Trimmed(Trim(s))
    ensures Trimmed(s) ==> Trim(s) == s
  {
    if s != "" && IsSpace(s[0]) {
      TrimTrims(s[1..]);
    } else if s != "" && IsSpace(s[|s| - 1]) {
      TrimTrims(s[..|s| - 1]);
    }
  }

  /** Trimming takes away spaces at both ends and nothing else. */
  lemma {:induction false} TrimTakes(s: string) returns (i: nat, j: nat)
    ensures i <= j <= |s| && Trim(s) == s[i..j]
    ensures forall k :: 0 <= k < i || j <= k < |s| ==> IsSpace(s[k])
  {
    if s != "" && IsSpace(s[0]) {
      i, j := TrimTakes(s[1..]);
      assert s[1..][i..j] == s[i + 1..j + 1];
      i, j := i + 1, j + 1;
      forall k | 0 <= k < i || j <= k < |s| ensures IsSpace(s[k]) {
        assert k > 0 ==> s[k] == s[1..][k - 1];
      }
    } else if s != "" && IsSpace(s[|s| - 1]) {
      i, j := TrimTakes(s[..|s| - 1]);
      assert s[..|s| - 1][i..j] == s[i..j];
    } else {
      i, j := 0, |s|;
    }
  }

  function LowerChar(c: char): char {
    if 'A' <= c <= 'Z' then 'a' + (c - 'A') else c
  }

  /** Lower case of the ASCII letters. */
  function Lower(s: string): string {
    if s == "" then "" else [LowerChar(s[0])] + Lower(s[1..])
  }

  /** Length of the text in bytes. */
  function Utf8Length(s: string): nat {
    if s == "" then 0
    else
      (if s[0] < 0x80 as char then 1 else if s[0] < 0x800 as char then 2 else if s[0] < 0x10000 as char then 3 else 4)
        + Utf8Length(s[1..])
  }

  predicate IsHexDigit(c: char) {
    '0' <= c <= '9' || 'a' <= c <= 'f' || 'A' <= c <= 'F'
  }

  predicate ValidSha256Hex(s: string) {
    |s| == 64 && forall i :: 0 <= i < |s| ==> IsHexDigit(s[i])
  }

  lemma {:induction false} LowerAt(s: string)
    ensures |Lower(s)| == |s|
    ensures forall i :: 0 <= i < |s| ==> Lower(s)[i] == LowerChar(s[i])
  {
    if s == "" {
    } else {
      LowerAt(s[1..]);
    }
  }

  /** Hashes are recognised in either case. */
  lemma LowerHexIff(s: string)
    ensures ValidSha256Hex(Lower(s)) <==> ValidSha256Hex(s)
  {
    LowerAt(s);
    forall i | 0 <= i < |s| ensures IsHexDigit(Lower(s)[i]) <==> IsHexDigit(s[i]) {
    }
  }

  lemma HexPlain(s: string)
    requires ValidSha256Hex(s)
    ensures Plain(s)
  {
  }

  newtype Byte = x: int | 0 <= x < 256

  // ---------------------------------------------------------------- decimal numbers

  function Digit(d: nat): char
    requires d < 10
  {
    '0' + d as char
  }

  function Digits(n: nat): (s: string)
    ensures s != ""
    ensures AllDigits(s)
  {
    if n < 10 then [Digit(n)] else Digits(n / 10) + [Digit(n % 10)]
  }

  function Decimal(n: int): string {
    if n < 0 then "-" + Digits(-n) else Digits(n)
  }

  function Zeros(k: nat): string {
    if k == 0 then "" else "0" + Zeros(k - 1)
  }

  /** Zero-padded to at least `width` characters. */
  function Padded(n: nat, width: nat): string {
    var s := Digits(n);
    if |s| < width then Zeros(width - |s|) + s else s
  }

  /** Zero-padded with the sign in front. */
  function PaddedInt(n: int, width: nat): string {
    if n < 0 then "-" + Padded(-n, if width > 0 then width - 1 else 0) else Padded(n, width)
  }

  predicate AllDigits(s: string) {
    forall i :: 0 <= i < |s| ==> '0' <= s[i] <= '9'
  }

  function Value(s: string): nat
    requires AllDigits(s)
  {
    if s == "" then 0
    else 10 * Value(s[..|s| - 1]) + (s[|s| - 1] - '0') as nat
  }

  lemma {:induction false} DigitsValue(n: nat)
    ensures Value(Digits(n)) == n
  {
    var s := Digits(n);
    if n < 10 {
      assert s[..0] == "";
    } else {
      DigitsValue(n / 10);
      assert s[..|s| - 1] == Digits(n / 10);
    }
  }

  lemma {:induction false} LeadingZeroIdle(s: string)
    requires AllDigits(s)
    ensures Value("0" + s) == Value(s)
  {
    var t := "0" + s;
    if s == "" {
      assert t[..0] == "";
    } else {
      LeadingZeroIdle(s[..|s| - 1]);
      assert t[..|t| - 1] == "0" + s[..|s| - 1];
    }
  }

  lemma {:induction false} ZerosIdle(k: nat, s: string)
    requires AllDigits(s)
    ensures AllDigits(Zeros(k) + s) && Value(Zeros(k) + s) == Value(s)
  {
    if k == 0 {
      assert Zeros(k) + s == s;
    } else {
      ZerosIdle(k - 1, s);
      LeadingZeroIdle(Zeros(k - 1) + s);
      assert Zeros(k) + s == "0" + (Zeros(k - 1) + s);
    }
  }

  lemma PaddedValue(n: nat, width: nat)
    ensures AllDigits(Padded(n, width)) && Value(Padded(n, width)) == n
    ensures Plain(Padded(n, width))
  {
    var s := Digits(n);
    DigitsValue(n);
    if |s| < width {
      ZerosIdle(width - |s|, s);
    }
    DigitsPlain(Padded(n, width));
  }

  lemma PaddedInjective(m: nat, n: nat, width: nat)
    requires Padded(m, width) == Padded(n, width)
    ensures m == n
  {
    PaddedValue(m, width);
    PaddedValue(n, width);
  }

  lemma DigitsPlain(s: string)
    requires AllDigits(s)
    ensures Plain(s)
  {
  }

  /** The inverse of `Decimal`. */
  function ParseDecimal(s: string): Option<int> {
    if s != "" && s[0] == '-' && AllDigits(s[1..]) then Some(-(Value(s[1..]) as int))
    else if AllDigits(s) then Some(Value(s) as int)
    else None
  }

  lemma DecimalRoundTrip(n: int)
    ensures ParseDecimal(Decimal(n)) == Some(n)
    ensures Plain(Decimal(n))
  {
    if n < 0 {
      DigitsValue(-n);
      SignedPlain(Digits(-n));
      assert Decimal(n)[1..] == Digits(-n);
    } else {
      DigitsValue(n);
      DigitsPlain(Digits(n));
    }
  }

  lemma DecimalInjective(m: int, n: int)
    requires Decimal(m) == Decimal(n)
    ensures m == n
  {
    DecimalRoundTrip(m);
    DecimalRoundTrip(n);
  }

  lemma SignedPlain(s: string)
    requires AllDigits(s)
    ensures Plain("-" + s)
  {
  }

  // ---------------------------------------------------------------- parts joined by US

  function Join(parts: seq<string>): string {
    if parts == [] then ""
    else if |parts| == 1 then parts[0]
    else parts[0] + [US] + Join(parts[1..])
  }

  predicate AllPlain(parts: seq<string>) {
    forall i :: 0 <= i < |parts| ==> Plain(parts[i])
  }

  lemma AllPlainAppend(a: seq<string>, b: seq<string>)
    requires AllPlain(a) && AllPlain(b)
    ensures AllPlain(a + b)
  {
  }

  /** Non-empty lists of separator-free parts are determined by their join. */
  lemma {:induction false} JoinInjective(a: seq<string>, b: seq<string>)
    requires a != [] && b != []
    requires AllPlain(a) && AllPlain(b)
    requires Join(a) == Join(b)
    ensures a == b
  {
    var s := Join(a);
    JoinHead(a);
    JoinHead(b);
    assert forall i :: 0 <= i < |a[0]| ==> s[i] == s[..|a[0]|][i] != US;
    assert forall i :: 0 <= i < |b[0]| ==> s[i] == s[..|b[0]|][i] != US;
    assert |a[0]| == |b[0]|;
    if |a| <= 1 {
    } else {
      JoinInjective(a[1..], b[1..]);
      assert a == [a[0]] + a[1..] && b == [b[0]] + b[1..];
    }
  }

  lemma JoinHead(parts: seq<string>)
    requires parts != []
    ensures |parts[0]| <= |Join(parts)| && Join(parts)[..|parts[0]|] == parts[0]
    ensures |parts| == 1 ==> Join(parts) == parts[0]
    ensures |parts| > 1 ==>
      && |parts[0]| < |Join(parts)|
      && Join(parts)[|parts[0]|] == US
      && Join(parts)[|parts[0]| + 1..] == Join(parts[1..])
  {
  }

  /** A common first part cancels, whatever it holds. */
  lemma JoinCancel(head: string, a: seq<string>, b: seq<string>)
    requires a != [] && b != []
    requires Join([head] + a) == Join([head] + b)
    ensures Join(a) == Join(b)
  {
    JoinHead([head] + a);
    JoinHead([head] + b);
    assert ([head] + a)[1..] == a && ([head] + b)[1..] == b;
  }

  /** A text joined from a common first part and plain parts determines the plain parts. */
  lemma JoinDetermines(head: string, a: seq<string>, b: seq<string>)
    requires a != [] && b != [] && AllPlain(a) && AllPlain(b)
    requires Join([head] + a) == Join([head] + b)
    ensures a == b
  {
    JoinCancel(head, a, b);
    JoinInjective(a, b);
  }

  // ---------------------------------------------------------------- named fields

  datatype Field = Field(name: string, value: string)

  function EncodeField(f: Field): string {
    f.name + [US] + f.value + [RS]
  }

  function EncodeFields(fs: seq<Field>): string {
    if fs == [] then "" else EncodeField(fs[0]) + EncodeFields(fs[1..])
  }

  lemma {:induction false} EncodeAppend(a: seq<Field>, b: seq<Field>)
    ensures EncodeFields(a + b) == EncodeFields(a) + EncodeFields(b)
  {
    if a == [] {
      assert a + b == b;
    } else {
      EncodeAppend(a[1..], b);
      assert (a + b)[1..] == a[1..] + b;
      Associative(EncodeField(a[0]), EncodeFields(a[1..]), EncodeFields(b));
    }
  }

  /** The builder holds the encoding of the fields pushed so far. */
  method PushField(output: string, ghost pushed: seq<Field>, name: string, value: string) returns (text: string)
    requires output == EncodeFields(pushed)
    ensures text == EncodeFields(pushed + [Field(name, value)])
  {
    EncodeAppend(pushed, [Field(name, value)]);
    text := output + name + [US] + value + [RS];
  }

  /** The first occurrence of `c`, or the length of the text. */
  function Find(s: string, c: char): (i: nat)
    ensures i <= |s|
    ensures forall j :: 0 <= j < i ==> s[j] != c
    ensures i < |s| ==> s[i] == c
  {
    if s == "" || s[0] == c then 0
    else
      assert forall j :: 1 <= j < |s| ==> s[j] == s[1..][j - 1];
      1 + Find(s[1..], c)
  }

  lemma FindPrefix(p: string, c: char, rest: string)
    requires forall i :: 0 <= i < |p| ==> p[i] != c
    ensures Find(p + [c] + rest, c) == |p|
  {
    var s := p + [c] + rest;
    assert s[|p|] == c;
    assert forall i :: 0 <= i < |p| ==> s[i] == p[i];
  }

  function DecodeFields(s: string): Option<seq<Field>> {
    if s == "" then Some([])
    else
      var e := Find(s, RS);
      if e == |s| then None
      else
        var u := Find(s[..e], US);
        if u == e then None
        else
          var rest :- DecodeFields(s[e + 1..]);
          Some([Field(s[..u], s[u + 1..e])] + rest)
  }

  /** Does not hold the terminator of a field. */
  predicate Unterminated(s: string) {
    forall i :: 0 <= i < |s| ==> s[i] != RS
  }

  predicate PlainField(f: Field) {
    Plain(f.name) && Unterminated(f.value)
  }

  /** A list of fields whose names hold no separator and whose values hold no terminator is read back
      unchanged. */
  lemma {:induction false} FieldsRoundTrip(fs: seq<Field>)
    requires forall i :: 0 <= i < |fs| ==> PlainField(fs[i])
    ensures DecodeFields(EncodeFields(fs)) == Some(fs)
  {
    if fs == [] {
    } else {
      FieldsRoundTrip(fs[1..]);
      DecodesFirst(fs[0], EncodeFields(fs[1..]));
      assert fs == [fs[0]] + fs[1..];
    }
  }

  lemma DecodesFirst(f: Field, rest: string)
    requires PlainField(f)
    requires DecodeFields(rest).Some?
    ensures DecodeFields(EncodeField(f) + rest) == Some([f] + DecodeFields(rest).value)
  {
    var body := f.name + [US] + f.value;
    var s := body + [RS] + rest;
    assert s == EncodeField(f) + rest;
    FindPrefix(body, RS, rest);
    assert s[..|body|] == body;
    FindPrefix(f.name, US, f.value);
    assert s[..|f.name|] == f.name;
    assert s[|f.name| + 1..|body|] == f.value;
    assert s[|body| + 1..] == rest;
  }

  /** How many terminators a text holds. */
  function Terminators(s: string): nat {
    if s == "" then 0 else (if s[0] == RS then 1 else 0) + Terminators(s[1..])
  }

  lemma {:induction false} TerminatorsAppend(a: string, b: string)
    ensures Terminators(a + b) == Terminators(a) + Terminators(b)
  {
    if a == "" {
      assert a + b == b;
    } else {
      TerminatorsAppend(a[1..], b);
      assert (a + b)[1..] == a[1..] + b;
    }
  }

  lemma {:induction false} UnterminatedIff(s: string)
    ensures Terminators(s) == 0 <==> Unterminated(s)
  {
    if s == "" {
    } else {
      UnterminatedIff(s[1..]);
      assert forall i :: 1 <= i < |s| ==> s[i] == s[1..][i - 1];
    }
  }

  lemma FieldTerminators(f: Field)
    requires Plain(f.name)
    ensures Terminators(EncodeField(f)) == 1 + Terminators(f.value)
  {
    UnterminatedIff(f.name);
    UnterminatedIff([US]);
    TerminatorsAppend(f.name, [US]);
    TerminatorsAppend(f.name + [US], f.value);
    TerminatorsAppend(f.name + [US] + f.value, [RS]);
    assert [RS][1..] == "";
  }

  /** A text holds at least one terminator for each field, and no more if and only if no value holds
      one. */
  lemma {:induction false} FieldsTerminators(fs: seq<Field>)
    requires forall i :: 0 <= i < |fs| ==> Plain(fs[i].name)
    ensures Terminators(EncodeFields(fs)) >= |fs|
    ensures Terminators(EncodeFields(fs)) == |fs| <==> forall i :: 0 <= i < |fs| ==> Unterminated(fs[i].value)
  {
    if fs == [] {
    } else {
      FieldsTerminators(fs[1..]);
      FieldTerminators(fs[0]);
      UnterminatedIff(fs[0].value);
      TerminatorsAppend(EncodeField(fs[0]), EncodeFields(fs[1..]));
      assert forall i :: 1 <= i < |fs| ==> fs[i] == fs[1..][i - 1];
    }
  }
}
