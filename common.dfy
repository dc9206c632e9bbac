/** Shared vocabulary of the idle monitor: optional values, bytes, the
    searches and splits that the status-protocol parsers perform on byte
    strings and text, and the decimal integers those replies carry. */
module Common {

  datatype Option<T> = None | Some(value: T) {
    /** The value, or `default` when there is none (Python's `dict.get(key, default)`). */
    function GetOr(default: T): T {
      match this
      case Some(v) => v
      case None => default
    }
  }

  newtype byte = x: int | 0 <= x < 256

  /** Every socket read of the status methods is `recv(1024)` or
      `recvfrom(1024)`: one read yields at most this many bytes, and a
      longer datagram is cut to its first 1024. */
  const RecvSize: nat := 1024

  /** What one such read yields. */
  type Received = b: seq<byte> | |b| <= RecvSize

  /** Python's `s.find(x)`: the index of the first `x`, or -1. */
  function FirstIndex<T(==)>(s: seq<T>, x: T): (r: int)
    ensures r == -1 ==> x !in s
    ensures r != -1 ==> 0 <= r < |s| && s[r] == x && x !in s[..r]
  {
    if |s| == 0 then -1
    else if s[0] == x then 0
    else
      var k := FirstIndex(s[1..], x);
      if k == -1 then -1
      else
        assert s[..k + 1] == [s[0]] + s[1..][..k];
        k + 1
  }

  /** Python's `s.rfind(x)`: the index of the last `x`, or -1. */
  function LastIndex<T(==)>(s: seq<T>, x: T): (r: int)
    ensures r == -1 ==> x !in s
    ensures r != -1 ==> 0 <= r < |s| && s[r] == x && x !in s[r + 1..]
  {
    if |s| == 0 then -1
    else if s[|s| - 1] == x then |s| - 1
    else
      var k := LastIndex(s[..|s| - 1], x);
      assert k != -1 ==> s[k + 1..] == s[..|s| - 1][k + 1..] + [s[|s| - 1]];
      assert k == -1 ==> s == s[..|s| - 1] + [s[|s| - 1]];
      k
  }

  /** The pieces joined with `sep` between consecutive ones. */
  function Join<T>(parts: seq<seq<T>>, sep: T): seq<T>
  {
    if |parts| == 0 then []
    else if |parts| == 1 then parts[0]
    else parts[0] + [sep] + Join(parts[1..], sep)
  }

  /** Python's `s.split(sep)`: the maximal runs between separators; there is
      always at least one piece, and joining them back gives `s`. */
  function Split<T(==)>(s: seq<T>, sep: T): (parts: seq<seq<T>>)
    ensures |parts| >= 1
    ensures forall i :: 0 <= i < |parts| ==> sep !in parts[i]
    ensures Join(parts, sep) == s
    decreases |s|
  {
    var k := FirstIndex(s, sep);
    if k == -1 then [s]
    else
      var rest := Split(s[k + 1..], sep);
      assert s == s[..k] + [sep] + s[k + 1..];
      [s[..k]] + rest
  }

  lemma {:induction false} FirstIndexAfterSeparatorFree<T>(p: seq<T>, sep: T, rest: seq<T>)
    requires sep !in p
    ensures FirstIndex(p + [sep] + rest, sep) == |p|
  {
    var s := p + [sep] + rest;
    assert s[|p|] == sep;
  }

  /** Splitting undoes joining, as long as no piece holds the separator. */
  lemma {:induction false} SplitJoin<T>(parts: seq<seq<T>>, sep: T)
    requires |parts| >= 1
    requires forall i :: 0 <= i < |parts| ==> sep !in parts[i]
    ensures Split(Join(parts, sep), sep) == parts
  {
    if |parts| == 1 {
      assert FirstIndex(parts[0], sep) == -1;
    } else {
      var rest := Join(parts[1..], sep);
      FirstIndexAfterSeparatorFree(parts[0], sep, rest);
      var s := parts[0] + [sep] + rest;
      assert s[..|parts[0]|] == parts[0];
      assert s[|parts[0]| + 1..] == rest;
      SplitJoin(parts[1..], sep);
    }
  }

  /** Joining one more piece appends the separator and that piece. */
  lemma {:induction false} JoinAppend<T>(parts: seq<seq<T>>, x: seq<T>, sep: T)
    requires |parts| >= 1
    ensures Join(parts + [x], sep) == Join(parts, sep) + [sep] + x
    decreases |parts|
  {
    if |parts| == 1 {
      assert (parts + [x])[1..] == [x];
    } else {
      assert (parts + [x])[1..] == parts[1..] + [x];
      JoinAppend(parts[1..], x, sep);
    }
  }

  // ---------------------------------------------------------------------
  // Decimal integers, as Python's int() reads them from status replies.

  predicate IsDigit(c: char) { '0' <= c <= '9' }

  predicate AllDigits(s: string) { forall i :: 0 <= i < |s| ==> IsDigit(s[i]) }

  function DigitsValue(s: string): nat
    requires AllDigits(s)
  {
    if |s| == 0 then 0
    else DigitsValue(s[..|s| - 1]) * 10 + ((s[|s| - 1] as int) - ('0' as int))
  }

  /** Python's `int(s)`, restricted to an optional `+`/`-` sign followed by
      one or more ASCII digits; anything else is a ValueError (None). */
  function ParseInt(s: string): (r: Option<int>)
    ensures r.Some? ==> |s| >= 1
    ensures r.Some? && IsDigit(s[0]) ==> r.value >= 0
  {
    if |s| >= 2 && (s[0] == '+' || s[0] == '-') && AllDigits(s[1..]) then
      var v: int := DigitsValue(s[1..]);
      Some(if s[0] == '-' then -v else v)
    else if |s| >= 1 && AllDigits(s) then Some(DigitsValue(s))
    else None
  }

  function DigitChar(d: nat): char
    requires d < 10
  {
    (('0' as int) + d) as char
  }

  /** The decimal text of a count, as a server writes it. */
  function ShowNat(n: nat): (s: string)
    ensures |s| >= 1 && AllDigits(s)
  {
    if n < 10 then [DigitChar(n)] else ShowNat(n / 10) + [DigitChar(n % 10)]
  }

  lemma {:induction false} DigitsValueShowNat(n: nat)
    ensures DigitsValue(ShowNat(n)) == n
  {
    if n >= 10 {
      var s := ShowNat(n);
      assert s[..|s| - 1] == ShowNat(n / 10);
      DigitsValueShowNat(n / 10);
    }
  }

  /** int() reads back exactly the count that was written in decimal. */
  lemma ParseShowNat(n: nat)
    ensures ParseInt(ShowNat(n)) == Some(n)
  {
    DigitsValueShowNat(n);
  }

  /** A signed count reads back with its sign. */
  lemma ParseSignedShowNat(n: nat)
    ensures ParseInt("-" + ShowNat(n)) == Some(-(n as int))
    ensures ParseInt("+" + ShowNat(n)) == Some(n)
  {
    DigitsValueShowNat(n);
    assert ("-" + ShowNat(n))[1..] == ShowNat(n);
    assert ("+" + ShowNat(n))[1..] == ShowNat(n);
  }

  /** The text int() accepts in this model, with the ten digits listed: an
      optional sign, then at least one digit. */
  predicate IsDecimalText(s: string)
  {
    |Unsigned(s)| >= 1 && ListedDigits(Unsigned(s))
  }

  /** The text after a leading sign, if there is one. */
  function Unsigned(s: string): string
  {
    if |s| > 0 && (s[0] == '+' || s[0] == '-') then s[1..] else s
  }

  predicate ListedDigits(d: string)
  {
    forall i :: 0 <= i < |d| ==> d[i] in "0123456789"
  }

  lemma DigitListed(c: char)
    ensures c in "0123456789" <==> IsDigit(c)
  {
    if IsDigit(c) {
      assert c == "0123456789"[(c as int) - ('0' as int)];
    }
  }

  /** int() succeeds exactly on decimal text; anything else (an empty
      field, a bare sign, letters) is the ValueError path. */
  lemma ParseIntAccepts(s: string)
    ensures ParseInt(s).Some? <==> IsDecimalText(s)
  {
    var digits := Unsigned(s);
    forall i | 0 <= i < |digits|
      ensures digits[i] in "0123456789" <==> IsDigit(digits[i])
    {
      DigitListed(digits[i]);
    }
    assert ListedDigits(digits) <==> AllDigits(digits);
  }

  /** Concrete ValueError cases, and a negative value. */
  lemma ParseIntExamples()
    ensures ParseInt("") == None && ParseInt("+") == None && ParseInt("-") == None
    ensures ParseInt("abc") == None && ParseInt("4x") == None && ParseInt("--4") == None
    ensures ParseInt("-12") == Some(-12)
  {
    assert !IsDigit("4x"[1]);
    assert !IsDigit("--4"[1]);
    assert DigitsValue("12") == 12 by { assert "12"[..1] == "1"; }
    assert "-12"[1..] == "12";
  }

  // ---------------------------------------------------------------------
  // ASCII text carried in byte strings.

  predicate IsAscii(b: seq<byte>) { forall i :: 0 <= i < |b| ==> b[i] < 128 }

  /** `b.decode('utf-8')` for ASCII bytes; None for anything that is not
      ASCII (no such byte can be part of a decimal integer). */
  function AsciiText(b: seq<byte>): (r: Option<string>)
    ensures r.Some? <==> IsAscii(b)
    ensures r.Some? ==> |r.value| == |b| && forall i :: 0 <= i < |b| ==> r.value[i] as int == b[i] as int
  {
    if IsAscii(b) then Some(seq(|b|, i requires 0 <= i < |b| => b[i] as char)) else None
  }

  /** The bytes of ASCII text. */
  function AsciiBytes(s: string): (b: seq<byte>)
    requires forall i :: 0 <= i < |s| ==> s[i] as int < 128
    ensures |b| == |s| && forall i :: 0 <= i < |s| ==> b[i] as int == s[i] as int
    ensures IsAscii(b)
  {
    seq(|s|, i requires 0 <= i < |s| => s[i] as int as byte)
  }

  lemma AsciiTextOfBytes(s: string)
    requires forall i :: 0 <= i < |s| ==> s[i] as int < 128
    ensures AsciiText(AsciiBytes(s)) == Some(s)
  {
    var t := AsciiText(AsciiBytes(s)).value;
    assert forall i :: 0 <= i < |s| ==> t[i] as int == s[i] as int;
    assert t == s;
  }

  /** `int(b.decode('utf-8'))` on a byte field. */
  function ParseIntBytes(b: seq<byte>): (r: Option<int>)
    ensures r.Some? ==> IsAscii(b) && |b| >= 1
  {
    match AsciiText(b)
    case None => None
    case Some(s) => ParseInt(s)
  }

  /** A count written as ASCII decimal bytes parses back to itself. */
  lemma ParseIntBytesShowNat(n: nat)
    ensures 0 !in AsciiBytes(ShowNat(n))
    ensures ParseIntBytes(AsciiBytes(ShowNat(n))) == Some(n)
  {
    AsciiTextOfBytes(ShowNat(n));
    ParseShowNat(n);
  }

  /** A byte field reads as a count exactly when it is ASCII decimal text;
      such a field holds no NUL, so it survives a split on NUL intact. */
  lemma ParseIntBytesAccepts(b: seq<byte>)
    ensures ParseIntBytes(b).Some? <==> IsAscii(b) && IsDecimalText(AsciiText(b).value)
    ensures ParseIntBytes(b).Some? ==> 0 !in b
  {
    ParseIntAccepts(if IsAscii(b) then AsciiText(b).value else "");
  }

  /** A byte that is not ASCII, and a sign with no digits, are rejected;
      `-5` reads as -5. */
  lemma ParseIntBytesExamples()
    ensures ParseIntBytes([0xC3, 0xA9]) == None
    ensures ParseIntBytes([0x2D]) == None
    ensures ParseIntBytes([0x2D, 0x35]) == Some(-5)
  {
    var accented: seq<byte> := [0xC3, 0xA9];
    assert accented[0] >= 128;
    var sign: seq<byte> := [0x2D];
    var t := AsciiText(sign).value;
    assert t[0] == '-';
    assert t == "-";
    var minusFive: seq<byte> := [0x2D, 0x35];
    var u := AsciiText(minusFive).value;
    assert u[0] == '-' && u[1] == '5';
    assert u == "-5";
    assert "-5"[1..] == "5" && DigitsValue("5") == 5;
  }
}
