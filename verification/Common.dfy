/** Vocabulary shared by the models: optional values, octets, big-endian words,
    C strings, name/value pairs and the decimal reader behind atoi and fscanf. */
module Common {

  datatype Option<+T> = None | Some(value: T) {
    function GetOr(default: T): T {
      match this
      case Some(v) => v
      case None => default
    }
  }

  type Byte = x: int | 0 <= x < 256

  /** An unsigned 32-bit word. */
  type Word = x: int | 0 <= x < 0x1_0000_0000

  /* errno values, as the C code returns them (usually negated). */
  const EIO := 5
  const ENOMEM := 12
  const EINVAL := 22

  /** Stands for the death of the process: a NULL pointer followed, or a block of
      memory used or freed after it was freed. */
  const FAULT := -139

  /** A pointer to allocated memory, as far as free() cares. */
  datatype Block = Null | Live | Freed

  /** free(): nothing for NULL, and fatal for a block that is already free. */
  method FreeBlock(b: Block) returns (b': Block, fatal: bool)
    ensures fatal <==> b.Freed?
    ensures b' == if b.Null? then Null else Freed
  {
    fatal := b.Freed?;
    b' := if b.Null? then Null else Freed;
  }

  /** One entry of an ecryptfs_name_val_pair list. Of the flag word only
      ECRYPTFS_PROCESSED is kept. */
  datatype Pair = Pair(name: Option<string>, value: Option<string>, processed: bool)

  /** asprintf("%s", p) with glibc's text for a NULL argument. */
  function Printed(s: Option<string>): string {
    s.GetOr("(null)")
  }

  /* ---- big-endian words ---- */

  function ToBigEndian(w: Word): (s: seq<Byte>)
    ensures |s| == 4
  {
    [w / 0x100 / 0x100 / 0x100, w / 0x100 / 0x100 % 0x100, w / 0x100 % 0x100, w % 0x100]
  }

  function FromBigEndian(s: seq<Byte>): Word
    requires |s| == 4
  {
    0x100 * (0x100 * (0x100 * s[0] as int + s[1]) + s[2]) + s[3]
  }

  lemma BigEndianRoundTrip(w: Word)
    ensures FromBigEndian(ToBigEndian(w)) == w
  {
    var (x, y) := (w / 0x100, w / 0x100 / 0x100);
    assert w == 0x100 * x + w % 0x100;
    assert x == 0x100 * y + x % 0x100;
    assert y == 0x100 * (y / 0x100) + y % 0x100;
  }

  lemma BigEndianInjective(s: seq<Byte>)
    requires |s| == 4
    ensures ToBigEndian(FromBigEndian(s)) == s
  {
    var x: int := 0x100 * s[0] as int + s[1];
    var y: int := 0x100 * x + s[2];
    assert FromBigEndian(s) / 0x100 == y && y / 0x100 == x;
  }

  /** s comes before t in the order of memcmp: they differ first where s is smaller. */
  predicate Before(s: seq<Byte>, t: seq<Byte>) {
    s != [] && t != [] && (s[0] < t[0] || (s[0] == t[0] && Before(s[1..], t[1..])))
  }

  /** The most significant octet comes first: words compare as their octets do. */
  lemma BigEndianOrder(w: Word, v: Word)
    ensures Before(ToBigEndian(w), ToBigEndian(v)) <==> w < v
  {
    var (a, b) := (ToBigEndian(w), ToBigEndian(v));
    BigEndianRoundTrip(w);
    BigEndianRoundTrip(v);
    Before4(a, b);
  }

  lemma Before4(a: seq<Byte>, b: seq<Byte>)
    requires |a| == |b| == 4
    ensures Before(a, b) <==> FromBigEndian(a) < FromBigEndian(b)
  {
    assert Before(a[3..], b[3..]) <==> a[3] < b[3];
    assert Before(a[2..], b[2..]) <==> a[2] < b[2] || (a[2] == b[2] && a[3] < b[3]) by {
      assert a[2..][1..] == a[3..] && b[2..][1..] == b[3..];
    }
    assert Before(a[1..], b[1..]) <==> a[1] < b[1] || (a[1] == b[1] && Before(a[2..], b[2..])) by {
      assert a[1..][1..] == a[2..] && b[1..][1..] == b[2..];
    }
  }

  /* ---- buffers ---- */

  /** memcpy(&dest[at], s, |s|) */
  method CopyInto<T>(dest: array<T>, at: nat, s: seq<T>)
    requires at + |s| <= dest.Length
    modifies dest
    ensures dest[..at + |s|] == old(dest[..at]) + s && dest[at + |s|..] == old(dest[at + |s|..])
  {
    var k := 0;
    while k < |s|
      invariant 0 <= k <= |s|
      invariant dest[..at + k] == old(dest[..at]) + s[..k] && dest[at + k..] == old(dest[at + k..])
    {
      dest[at + k] := s[k];
      k := k + 1;
      assert dest[..at + k] == dest[..at + k - 1] + [s[k - 1]];
    }
  }

  /** The C string in a buffer: what is in front of the first NUL. */
  function CString<T(==)>(s: seq<T>, nul: T): (t: seq<T>)
    ensures |t| <= |s| && s[..|t|] == t && nul !in t
    ensures nul in s ==> |t| < |s| && s[|t|] == nul
  {
    if s == [] || s[0] == nul then [] else [s[0]] + CString(s[1..], nul)
  }

  lemma {:induction false} CStringBeforeNul<T>(t: seq<T>, nul: T, rest: seq<T>)
    requires nul !in t
    ensures CString(t + [nul] + rest, nul) == t
  {
    if t != [] {
      assert (t + [nul] + rest)[1..] == t[1..] + [nul] + rest;
      CStringBeforeNul(t[1..], nul, rest);
    }
  }

  /* ---- reading decimal numbers ---- */

  predicate IsDigit(c: char) { '0' <= c <= '9' }

  predicate IsSpace(c: char) { c == ' ' || '\t' <= c <= '\r' }

  function DigitValue(c: char): (d: nat)
    requires IsDigit(c)
    ensures d < 10
  {
    c as int - '0' as int
  }

  /** The value of the digits at the front of s, continuing from acc. */
  function ScanDigits(s: string, acc: nat): nat
    decreases |s|
  {
    if s == [] || !IsDigit(s[0]) then acc else ScanDigits(s[1..], acc * 10 + DigitValue(s[0]))
  }

  function SkipSpace(s: string): string
    decreases |s|
  {
    if s != [] && IsSpace(s[0]) then SkipSpace(s[1..]) else s
  }

  /** What the "%d" conversion reads from the front of s: optional white space,
      an optional sign, then at least one digit. */
  function ScanInt(s: string): Option<int> {
    var t := SkipSpace(s);
    var u := if t != [] && t[0] in {'+', '-'} then t[1..] else t;
    if u == [] || !IsDigit(u[0]) then None
    else
      var v: int := ScanDigits(u, 0);
      Some(if t[0] == '-' then -v else v)
  }

  /** atoi: zero when no number can be read. */
  function Atoi(s: string): int {
    ScanInt(s).GetOr(0)
  }

  /* ---- writing decimal numbers ---- */

  function Digit(d: nat): (c: char)
    requires d < 10
    ensures IsDigit(c) && DigitValue(c) == d
  {
    '0' + d as char
  }

  function Decimal(n: nat): (s: string)
    ensures s != []
  {
    if n < 10 then [Digit(n)] else Decimal(n / 10) + [Digit(n % 10)]
  }

  ghost predicate AllDigits(s: string) {
    forall k :: 0 <= k < |s| ==> IsDigit(s[k])
  }

  lemma {:induction false} DecimalIsDigits(n: nat)
    ensures AllDigits(Decimal(n))
  {
    if n >= 10 { DecimalIsDigits(n / 10); }
  }

  /** Reading digits is a fold: first s, then what follows. */
  lemma {:induction false} ScanAppend(s: string, t: string, acc: nat)
    requires AllDigits(s)
    ensures ScanDigits(s + t, acc) == ScanDigits(t, ScanDigits(s, acc))
    decreases |s|
  {
    if s == [] {
      assert s + t == t;
    } else {
      assert (s + t)[1..] == s[1..] + t;
      ScanAppend(s[1..], t, acc * 10 + DigitValue(s[0]));
    }
  }

  lemma {:induction false} ScanDecimal(n: nat)
    ensures ScanDigits(Decimal(n), 0) == n
  {
    if n < 10 {
      assert ScanDigits([Digit(n)][1..], n) == n;
    } else {
      DecimalIsDigits(n / 10);
      ScanDecimal(n / 10);
      var d := [Digit(n % 10)];
      ScanAppend(Decimal(n / 10), d, 0);
      assert ScanDigits(d[1..], n / 10 * 10 + n % 10) == n / 10 * 10 + n % 10;
    }
  }

  /** What was written is read back, whatever follows that is no digit. */
  lemma AtoiDecimal(n: nat, rest: string)
    requires rest == [] || !IsDigit(rest[0])
    ensures ScanInt(Decimal(n) + rest) == Some(n) && Atoi(Decimal(n) + rest) == n
  {
    var s := Decimal(n);
    DecimalIsDigits(n);
    ScanAppend(s, rest, 0);
    ScanDecimal(n);
    assert (s + rest)[0] == s[0] && IsDigit(s[0]);
    assert SkipSpace(s + rest) == s + rest;
  }

  /** White space in front is skipped and a minus sign counts. */
  lemma AtoiSigned(n: nat, rest: string)
    requires rest == [] || !IsDigit(rest[0])
    ensures Atoi("-" + (Decimal(n) + rest)) == -(n as int) && Atoi(" " + (Decimal(n) + rest)) == n
  {
    var s := Decimal(n) + rest;
    AtoiDecimal(n, rest);
    DecimalIsDigits(n);
    assert s[0] == Decimal(n)[0] && IsDigit(s[0]);
    hide Decimal, ScanInt, IsDigit;
    SpaceAndSign(s);
  }

  lemma SpaceAndSign(s: string)
    requires s != [] && IsDigit(s[0])
    ensures Atoi("-" + s) == -Atoi(s) && Atoi(" " + s) == Atoi(s)
  {
    hide ScanDigits;
    assert SkipSpace(s) == s;
    var minus, space := "-" + s, " " + s;
    assert minus[0] == '-' && minus[1..] == s && SkipSpace(minus) == minus;
    assert space[0] == ' ' && space[1..] == s && SkipSpace(space) == s;
  }

  /** A text that starts with none of these is no number. */
  lemma NoNumber(s: string)
    requires s == [] || !(IsDigit(s[0]) || IsSpace(s[0]) || s[0] == '+' || s[0] == '-')
    ensures ScanInt(s) == None && Atoi(s) == 0
  {
  }
}
