/**
 * Packing a sequence of unsigned bit-fields into one integer word, the way a
 * C compiler lays out a struct of bit-fields when it allocates them from the
 * least significant bit upward: the first declared field occupies the lowest
 * bits, each later field starts where the previous one ends. A layout is the
 * list of field widths in declaration order.
 */
module BitFields {

  function Pow2(n: nat): (p: nat)
    ensures p >= 1
  {
    if n == 0 then 1 else 2 * Pow2(n - 1)
  }

  lemma {:induction false} Pow2Add(a: nat, b: nat)
    ensures Pow2(a + b) == Pow2(a) * Pow2(b)
    decreases a
  {
    if a > 0 {
      Pow2Add(a - 1, b);
      assert Pow2(a + b) == 2 * Pow2(a - 1 + b);
    }
  }

  /** The bit position where field `i` starts: the total width of the fields declared before it. */
  function Position(ws: seq<nat>, i: nat): nat
    requires i <= |ws|
  {
    if i == 0 then 0 else ws[0] + Position(ws[1..], i - 1)
  }

  /** Each field starts where the one declared before it ends. */
  lemma {:induction false} PositionSnoc(ws: seq<nat>, i: nat)
    requires i < |ws|
    ensures Position(ws, i + 1) == Position(ws, i) + ws[i]
    decreases i
  {
    if i > 0 {
      PositionSnoc(ws[1..], i - 1);
    }
  }

  /** The number of bits the whole layout occupies. */
  function Width(ws: seq<nat>): nat {
    Position(ws, |ws|)
  }

  /**
   * Reading field `i` of `code`: the lowest field is the word modulo 2^width;
   * a later field is read from the word shifted past the lowest field.
   */
  function Field(ws: seq<nat>, code: nat, i: nat): (v: nat)
    requires i < |ws|
    ensures v < Pow2(ws[i])
    decreases i
  {
    var p := Pow2(ws[0]);
    DivModNat(code, p);
    if i == 0 then code % p
    else
      assert ws[1..][i - 1] == ws[i];
      Field(ws[1..], Shift(code, ws[0]), i - 1)
  }

  /** `code >> w`. */
  function Shift(code: nat, w: nat): nat {
    DivModNat(code, Pow2(w));
    code / Pow2(w)
  }

  /** Every field of `code`, in declaration order. */
  function Unpack(ws: seq<nat>, code: nat): seq<int> {
    seq(|ws|, i requires 0 <= i < |ws| => Field(ws, code, i))
  }

  /**
   * Storing `vals` into the fields of a zeroed word. Assigning a value to a
   * field of width w keeps it modulo 2^w, so a negative value is stored as its
   * two's-complement bit pattern.
   */
  function Pack(ws: seq<nat>, vals: seq<int>): (code: nat)
    requires |vals| == |ws|
    ensures code < Pow2(Width(ws))
    decreases |ws|
  {
    if |ws| == 0 then 0
    else
      var p := Pow2(ws[0]);
      var rest := Pack(ws[1..], vals[1..]);
      Pow2Add(ws[0], Width(ws[1..]));
      ModRange(vals[0], p);
      DigitBound(vals[0] % p, p, rest, Pow2(Width(ws[1..])));
      vals[0] % p + p * rest
  }

  lemma MulLe(p: nat, a: nat, b: nat)
    requires a <= b
    ensures p * a <= p * b
  {
  }

  lemma MulLtCancel(p: int, x: int, r: int)
    requires p > 0 && p * x < p * r
    ensures x < r
  {
    assert p * (r - x) == p * r - p * x;
  }

  /** The Euclidean remainder by a positive divisor lies in [0, p). */
  lemma ModRange(x: int, p: int)
    requires p > 0
    ensures 0 <= x % p < p
  {
  }

  /** Dividing a natural number by a positive one leaves natural quotient and remainder. */
  lemma DivModNat(x: nat, p: nat)
    requires p > 0
    ensures 0 <= x % p < p && 0 <= x / p
  {
    var q := x / p;
    var r := x % p;
    ModRange(x, p);
    assert x == q * p + r;
    assert p * (-1) < p * q by {
      assert p * q == x - r;
    }
    MulLtCancel(p, -1, q);
  }

  /** A low digit below `p` plus `p` times a high digit below `r` stays below `p * r`. */
  lemma DigitBound(a: int, p: nat, hi: nat, r: nat)
    requires 0 <= a < p && hi < r
    ensures a + p * hi < p * r
  {
    MulLe(p, hi + 1, r);
    assert p * (hi + 1) == p * hi + p;
  }

  /** Euclidean division is determined by quotient and remainder. */
  lemma DivModUnique(x: int, d: int, q: int, r: int)
    requires d > 0 && 0 <= r < d && x == q * d + r
    ensures x / d == q && x % d == r
  {
    var q' := x / d;
    var r' := x % d;
    assert x == q' * d + r';
    assert (q - q') * d == r' - r;
    if q > q' {
      MulLe(d, 1, q - q');
    } else if q < q' {
      MulLe(d, 1, q' - q);
    }
  }

  lemma DivDiv(x: nat, p: nat, q: nat)
    requires p > 0 && q > 0
    ensures x / (p * q) == (x / p) / q
  {
    var a := x / p;
    var b := a / q;
    var r1 := x % p;
    var r2 := a % q;
    assert x == a * p + r1;
    assert a == b * q + r2;
    assert x == b * (p * q) + (r2 * p + r1);
    MulLe(p, r2, q - 1);
    assert r2 * p + r1 < p * q;
    DivModUnique(x, p * q, b, r2 * p + r1);
  }

  /** Reading a field is a right shift by the field's position followed by a mask of its width. */
  lemma {:induction false} FieldIsShiftMask(ws: seq<nat>, code: nat, i: nat)
    requires i < |ws|
    ensures Field(ws, code, i) == (code / Pow2(Position(ws, i))) % Pow2(ws[i])
    decreases i
  {
    if i > 0 {
      var p := Pow2(ws[0]);
      FieldIsShiftMask(ws[1..], Shift(code, ws[0]), i - 1);
      PositionPow2(ws, i);
      assert ws[1..][i - 1] == ws[i];
      ShiftTwice(code, p, Pow2(Position(ws[1..], i - 1)), Pow2(ws[i]));
    }
  }

  lemma PositionPow2(ws: seq<nat>, i: nat)
    requires 0 < i <= |ws|
    ensures Pow2(Position(ws, i)) == Pow2(ws[0]) * Pow2(Position(ws[1..], i - 1))
  {
    var a := Position(ws[1..], i - 1);
    assert Position(ws, i) == ws[0] + a;
    Pow2Add(ws[0], a);
  }

  /** Shifting right by `p` and then by `q` is shifting by `p * q`. */
  lemma ShiftTwice(code: nat, p: nat, q: nat, m: nat)
    requires p > 0 && q > 0 && m > 0
    ensures (code / (p * q)) % m == ((code / p) / q) % m
  {
    DivDiv(code, p, q);
  }

  /** Reading back field `i` of a packed word gives the stored value modulo 2^width. */
  lemma {:induction false} FieldOfPack(ws: seq<nat>, vals: seq<int>, i: nat)
    requires |vals| == |ws| && i < |ws|
    ensures Field(ws, Pack(ws, vals), i) == vals[i] % Pow2(ws[i])
    decreases i
  {
    var p := Pow2(ws[0]);
    var rest := Pack(ws[1..], vals[1..]);
    var code := Pack(ws, vals);
    DivModUnique(code, p, rest, vals[0] % p);
    if i > 0 {
      FieldOfPack(ws[1..], vals[1..], i - 1);
    }
  }

  /** Packing the fields read from a word that fits the layout rebuilds the word. */
  lemma {:induction false} PackUnpack(ws: seq<nat>, code: nat)
    requires code < Pow2(Width(ws))
    ensures Pack(ws, Unpack(ws, code)) == code
    decreases |ws|
  {
    if |ws| > 0 {
      var p := Pow2(ws[0]);
      var r := Pow2(Width(ws[1..]));
      assert Width(ws) == ws[0] + Width(ws[1..]);
      Pow2Add(ws[0], Width(ws[1..]));
      HighDigit(code, p, r);
      var hi := Shift(code, ws[0]);
      UnpackShift(ws, code);
      PackUnpack(ws[1..], hi);
      var vals := Unpack(ws, code);
      assert vals[1..] == Unpack(ws[1..], hi);
      assert Pack(ws, vals) == vals[0] % p + p * Pack(ws[1..], vals[1..]);
      assert vals[0] % p == code % p;
    }
  }

  /** The fields of a word are its lowest field followed by the fields of the word shifted past it. */
  lemma UnpackShift(ws: seq<nat>, code: nat)
    requires |ws| > 0
    ensures Unpack(ws, code)[0] == code % Pow2(ws[0])
    ensures Unpack(ws, code)[1..] == Unpack(ws[1..], Shift(code, ws[0]))
  {
    var vals := Unpack(ws, code);
    var tail := Unpack(ws[1..], Shift(code, ws[0]));
    forall i | 0 <= i < |ws| - 1
      ensures vals[1..][i] == tail[i]
    {
      assert vals[1..][i] == Field(ws, code, i + 1);
    }
  }

  lemma HighDigit(code: nat, p: nat, r: nat)
    requires p > 0 && code < p * r
    ensures code / p < r
    ensures code == code % p + p * (code / p)
    ensures (code % p) % p == code % p
  {
    assert p * (code / p) <= code;
    MulLtCancel(p, code / p, r);
  }

  /** A packed word depends on each value only modulo 2^width of its field. */
  lemma {:induction false} PackModulo(ws: seq<nat>, a: seq<int>, b: seq<int>)
    requires |a| == |ws| && |b| == |ws|
    requires forall i | 0 <= i < |ws| :: a[i] % Pow2(ws[i]) == b[i] % Pow2(ws[i])
    ensures Pack(ws, a) == Pack(ws, b)
    decreases |ws|
  {
    if |ws| > 0 {
      forall i | 0 <= i < |ws| - 1
        ensures a[1..][i] % Pow2(ws[1..][i]) == b[1..][i] % Pow2(ws[1..][i])
      {
        assert a[1..][i] == a[i + 1] && b[1..][i] == b[i + 1];
      }
      PackModulo(ws[1..], a[1..], b[1..]);
    }
  }
}
