/** Integers as little-endian bytes, in the eight widths and signs that a flag can ask for. */
module LittleEndian {

  datatype Number = Int8 | UInt8 | Int16 | UInt16 | Int32 | UInt32 | Int64 | UInt64

  function Width(t: Number): (w: nat)
    ensures 1 <= w <= 8
  {
    match t
    case Int8 => 1 case UInt8 => 1
    case Int16 => 2 case UInt16 => 2
    case Int32 => 4 case UInt32 => 4
    case Int64 => 8 case UInt64 => 8
  }

  /** How many values `width` bytes have. */
  function Span(width: nat): (n: nat)
    ensures n > 0
  {
    if width == 0 then 1 else 256 * Span(width - 1)
  }

  /** The lowest `width` bytes of a number in two's complement, the lowest first. */
  function Bytes(value: int, width: nat): (s: string)
    ensures |s| == width
    decreases width
  {
    if width == 0 then [] else [(value % 256) as char] + Bytes(value / 256, width - 1)
  }

  function Unsigned(bytes: string): nat {
    if bytes == [] then 0 else bytes[0] as int % 256 + 256 * Unsigned(bytes[1..])
  }

  /** A number brought into the range of 64 signed bits, which is how every integer is passed on. */
  function AsInt64(n: nat): int { if n % Span(8) < Span(8) / 2 then n % Span(8) else n % Span(8) - Span(8) }

  function Reading(t: Number, n: nat): int {
    match t
    case UInt8 => n case UInt16 => n case UInt32 => n
    case Int8 => if n < 0x80 then n else n - 0x100
    case Int16 => if n < 0x8000 then n else n - 0x1_0000
    case Int32 => if n < 0x8000_0000 then n else n - 0x1_0000_0000
    case Int64 => AsInt64(n)
    case UInt64 => AsInt64(n)
  }

  /** The integers that a type holds when they are passed as 64 signed bits. */
  predicate Holds(t: Number, value: int) {
    match t
    case Int8 => -0x80 <= value < 0x80
    case UInt8 => 0 <= value < 0x100
    case Int16 => -0x8000 <= value < 0x8000
    case UInt16 => 0 <= value < 0x1_0000
    case Int32 => -0x8000_0000 <= value < 0x8000_0000
    case UInt32 => 0 <= value < 0x1_0000_0000
    case Int64 => -0x8000_0000_0000_0000 <= value < 0x8000_0000_0000_0000
    case UInt64 => -0x8000_0000_0000_0000 <= value < 0x8000_0000_0000_0000
  }

  lemma {:induction false} BytesAreTheNumber(value: int, width: nat)
    ensures Unsigned(Bytes(value, width)) == value % Span(width)
    decreases width
  {
    if width > 0 {
      BytesAreTheNumber(value / 256, width - 1);
      var bytes := Bytes(value, width);
      assert bytes[1..] == Bytes(value / 256, width - 1);
      SplitsOff(value, Span(width - 1));
    }
  }

  lemma SplitsOff(value: int, span: nat)
    requires span > 0
    ensures value % 256 + 256 * (value / 256 % span) == value % (256 * span)
  {
    var q, r := value / 256, value % 256;
    var k, m := q / span, q % span;
    assert value == 256 * q + r && q == span * k + m;
    assert value == (256 * span) * k + (256 * m + r) by {
      assert 256 * (span * k) == (256 * span) * k;
    }
    assert 0 <= 256 * m + r < 256 * span;
    RemainderIs(value, 256 * span, k, 256 * m + r);
  }

  lemma RemainderIs(value: int, d: nat, k: int, r: nat)
    requires d > 0 && value == d * k + r && r < d
    ensures value % d == r
  {
    var gap := k - value / d;
    var left := value % d;
    assert value == d * (value / d) + left;
    assert d * gap == left - r by { Distributes(d, k, value / d); }
    NoSmallMultiple(d, gap);
  }

  lemma Distributes(d: nat, a: int, b: int)
    ensures d * (a - b) == d * a - d * b
  {
  }

  lemma NoSmallMultiple(d: nat, gap: int)
    ensures gap >= 1 ==> d * gap >= d
    ensures gap <= -1 ==> d * gap + d <= 0
  {
    if gap >= 1 {
      Distributes(d, gap, 1);
      NoNegative(d, gap - 1);
    } else if gap <= -1 {
      Distributes(d, -1, gap);
      NoNegative(d, -1 - gap);
    }
  }

  lemma NoNegative(d: nat, n: nat)
    ensures d * n >= 0
  {
  }

  lemma Spans()
    ensures Span(1) == 0x100 && Span(2) == 0x1_0000 && Span(4) == 0x1_0000_0000 && Span(8) == 0x1_0000_0000_0000_0000
  {
    assert Span(2) == 256 * Span(1);
    assert Span(3) == 256 * Span(2) && Span(4) == 256 * Span(3);
    assert Span(5) == 256 * Span(4) && Span(6) == 256 * Span(5);
    assert Span(7) == 256 * Span(6) && Span(8) == 256 * Span(7);
  }

  /** What a type reads is something it holds. */
  lemma ReadingIsHeld(t: Number, n: nat)
    requires n < Span(Width(t))
    ensures Holds(t, Reading(t, n))
  {
    hide Span;
    Spans();
  }

  lemma HeldIsRead(t: Number, value: int)
    requires Holds(t, value)
    ensures Reading(t, value % Span(Width(t))) == value
  {
    hide Span;
    Spans();
    var span := Span(Width(t));
    if value < 0 { RemainderIs(value, span, -1, value + span); } else { RemainderIs(value, span, 0, value); }
  }

  /** What was written as a type reads back as itself exactly when the type holds it. */
  lemma NumberReturns(t: Number, value: int)
    ensures Reading(t, Unsigned(Bytes(value, Width(t)))) == value <==> Holds(t, value)
  {
    hide Span, Width, Reading, Holds, Bytes, Unsigned;
    BytesAreTheNumber(value, Width(t));
    ReadingIsHeld(t, value % Span(Width(t)));
    if Holds(t, value) { HeldIsRead(t, value); }
  }
}
