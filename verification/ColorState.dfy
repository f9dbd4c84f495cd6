/**
 gcode_viewer/js/dat.gui.js, the component accessors of `Color`: one colour kept in whichever of three spaces was
 written last, with the components of the other spaces as caches.
 */
module ColorState {

  import opened Options
  import opened ColorMath
  import opened HexPacking

  datatype Space = RGB | HSV | HEX

  datatype Channel = R | G | B

  /** Components as the getters give them; None is a component without a number, undefined or NaN. */
  datatype Components = Components(r: Option<real>, g: Option<real>, b: Option<real>) {
    function Get(ch: Channel): Option<real> { match ch case R => r case G => g case B => b }

    function Put(ch: Channel, x: Option<real>): Components {
      match ch case R => this.(r := x) case G => this.(g := x) case B => this.(b := x)
    }

    /** The same colour but for one component. */
    predicate AgreesBeside(other: Components, ch: Channel) {
      (ch == R || r == other.r) && (ch == G || g == other.g) && (ch == B || b == other.b)
    }

    predicate Defined() { r.Some? && g.Some? && b.Some? }

    function Rgb(): Rgb
      requires Defined()
    {
      ColorMath.Rgb(r.value, g.value, b.value)
    }
  }

  predicate IsGrey(c: Rgb) { c.r == c.g == c.b }

  function Of(c: Rgb): Components { Components(Some(c.r), Some(c.g), Some(c.b)) }

  function HexIndex(ch: Channel): nat { match ch case R => 2 case G => 1 case B => 0 }

  function Byte(hex: bv32, ch: Channel): real { (ComponentFromHex(hex, HexIndex(ch)) as int) as real }

  function Bytes(hex: bv32): Components { Components(Some(Byte(hex, R)), Some(Byte(hex, G)), Some(Byte(hex, B))) }

  /** The low 32 bits of a whole number. */
  function Low32(n: nat): bv32 { if n == 0 then 0 else Low32(n - 1) + 1 }

  /** The conversion to a 32-bit integer that a shift starts with: truncation, modulo 2^32; undefined becomes 0. */
  function Word(x: Option<real>): bv32 {
    if x.None? then 0
    else
      var n := if x.value >= 0.0 then x.value.Floor else -(-x.value).Floor;
      Low32(n % 0x1_0000_0000)
  }

  predicate IsByte(x: Option<real>) { x.Some? && x.value == x.value.Floor as real && 0.0 <= x.value <= 255.0 }

  lemma Successor(w: bv32)
    requires w as int < 255 && w <= 0xFF
    ensures (w + 1) as int == w as int + 1 && w + 1 <= 0xFF
  {
    BelowLast(w);
    SuccessorOfByte(w);
  }

  lemma BelowLast(w: bv32)
    requires w as int < 255 && w <= 0xFF
    ensures w < 0xFF
  {
  }

  lemma SuccessorOfByte(w: bv32)
    requires w < 0xFF
    ensures (w + 1) as int == w as int + 1 && w + 1 <= 0xFF
  {
  }

  lemma {:induction false} SmallIntegerFits(n: nat)
    requires n <= 255
    ensures Low32(n) <= 0xFF && Low32(n) as int == n
  {
    if n > 0 {
      SmallIntegerFits(n - 1);
      Successor(Low32(n - 1));
    }
  }

  lemma WordOfByte(x: Option<real>)
    requires IsByte(x)
    ensures Word(x) <= 0xFF && (Word(x) as int) as real == x.value
  {
    WordIsFloor(x);
    hide Word, Low32;
    SmallIntegerFits(x.value.Floor);
  }

  lemma WordIsFloor(x: Option<real>)
    requires IsByte(x)
    ensures Word(x) == Low32(x.value.Floor)
  {
    hide Low32;
    assert x.value.Floor % 0x1_0000_0000 == x.value.Floor;
  }

  /** The 32-bit conversion of JavaScript takes whole numbers modulo 2^32. */
  lemma WordOfInteger(n: int)
    ensures Word(Some(n as real)) == Low32(n % 0x1_0000_0000)
  {
    hide Low32;
    assert (n as real).Floor == n && (-(n as real)).Floor == -n;
  }

  /** Fractions are cut off towards zero. */
  lemma FractionsAreCut(x: real)
    requires x >= 0.0
    ensures Word(Some(x)) == Word(Some(x.Floor as real))
    ensures Word(Some(-x)) == Word(Some(-(x.Floor as real)))
  {
    hide Low32;
    assert (x.Floor as real).Floor == x.Floor;
    assert -x >= 0.0 ==> x == 0.0;
  }

  /** Packing the components into a hex colour keeps them exactly when each is a whole number from 0 to 255. */
  lemma HexKeepsExactlyBytes(c: Components)
    ensures Bytes(RgbToHex(Word(c.r), Word(c.g), Word(c.b))) == c <==> IsByte(c.r) && IsByte(c.g) && IsByte(c.b)
  {
    var hex := RgbToHex(Word(c.r), Word(c.g), Word(c.b));
    BytesAreBytes(hex);
    if IsByte(c.r) && IsByte(c.g) && IsByte(c.b) {
      WordOfByte(c.r);
      WordOfByte(c.g);
      WordOfByte(c.b);
      RgbToHexHoldsAll(Word(c.r), Word(c.g), Word(c.b));
      hide Word, RgbToHex, ComponentFromHex;
    }
  }

  lemma BytesAreBytes(hex: bv32)
    ensures IsByte(Bytes(hex).r) && IsByte(Bytes(hex).g) && IsByte(Bytes(hex).b)
  {
    forall ch: Channel
      ensures 0 <= ComponentFromHex(hex, HexIndex(ch)) as int <= 255
    {
      MaskIsByte(Right(hex, HexIndex(ch)));
    }
    hide ComponentFromHex;
  }

  lemma MaskIsByte(w: bv32)
    ensures w & 0xFF <= 0xFF && 0 <= (w & 0xFF) as int <= 255
  {
  }

  /** Exactly the greys have no hue of their own, among the colours that fit. */
  lemma GreysHaveNoHue(c: Rgb)
    ensures RgbToHsv(c).h == None <==> IsGrey(c) || !FitsHsv(c)
  {
  }

  lemma MisfitsTurnBlack(c: Rgb, retained: real)
    requires retained >= 0.0
    ensures !FitsHsv(c) ==> RgbToHsv(c) == Hsv(None, 0.0, 0.0)
    ensures HsvToRgb(retained, 0.0, 0.0) == Rgb(0.0, 0.0, 0.0)
  {
    GreyAtAnyHue(retained, 0.0);
  }

  // ---------------------------------------------------------------- the colour object

  class Color {
    var space: Space
    var r: Option<real>
    var g: Option<real>
    var b: Option<real>
    var h: Option<real>
    var s: Option<real>
    var v: Option<real>
    var hex: bv32

    constructor FromRgb(red: real, green: real, blue: real)
      ensures Valid() && space == RGB && Denoted() == Components(Some(red), Some(green), Some(blue))
    {
      space, r, g, b, h, s, v, hex := RGB, Some(red), Some(green), Some(blue), None, None, None, 0;
    }

    constructor FromHex(value: bv32)
      ensures Valid() && space == HEX && Denoted() == Bytes(value) && Cached() == Components(None, None, None)
    {
      space, r, g, b, h, s, v, hex := HEX, None, None, None, None, None, None, value;
    }

    /** Hues are never negative; the sector table has no entry for one. */
    predicate Valid()
      reads this
    {
      && (h.Some? ==> h.value >= 0.0)
      && (space == HSV ==> h.Some? && (s.Some? <==> v.Some?))
    }

    function Cached(): Components
      reads this
    {
      Components(r, g, b)
    }

    /** The colour the object stands for, from the fields of its current space alone. */
    function Denoted(): Components
      reads this
      requires Valid()
    {
      match space
      case RGB => Cached()
      case HSV => if s.Some? then Of(HsvToRgb(h.value, s.value, v.value)) else Components(None, None, None)
      case HEX => Bytes(hex)
    }

    /** `recalculateRGB`: a hex colour yields the one component asked for, an HSV colour all three. */
    method RecalculateRgb(ch: Channel)
      requires Valid() && space != RGB
      modifies `r, `g, `b
      ensures Valid() && Denoted() == old(Denoted())
      ensures Cached() == if space == HEX then old(Cached()).Put(ch, Denoted().Get(ch)) else Denoted()
    {
      if space == HEX {
        var x := Some(Byte(hex, ch));
        match ch
        case R => r := x;
        case G => g := x;
        case B => b := x;
      } else if s.Some? {
        var c := HsvToRgb(h.value, s.value, v.value);
        r, g, b := Some(c.r), Some(c.g), Some(c.b);
      } else {
        r, g, b := None, None, None;
      }
    }

    /** Reading a component gives that of the colour and does not change the colour. */
    method Get(ch: Channel) returns (x: Option<real>)
      requires Valid()
      modifies `r, `g, `b
      ensures Valid() && Denoted() == old(Denoted()) && x == Denoted().Get(ch)
      ensures Cached().Get(ch) == x
      ensures space == HEX ==> Cached() == old(Cached()).Put(ch, x)
    {
      if space != RGB {
        RecalculateRgb(ch);
      }
      x := match ch case R => r case G => g case B => b;
    }

    /**
     Writing a component replaces that component, except that a hex colour only brings along what its caches hold: the
     others are right exactly when they are not needed or had been read before.
     */
    method Set(ch: Channel, x: real)
      requires Valid()
      modifies `space, `r, `g, `b
      ensures Valid() && space == RGB
      ensures Denoted() == (if old(space) == HEX then old(Cached()) else old(Denoted())).Put(ch, Some(x))
      ensures Denoted() == old(Denoted()).Put(ch, Some(x)) <==>
                old(space) != HEX || old(Cached()).AgreesBeside(old(Denoted()), ch)
    {
      if space != RGB {
        RecalculateRgb(ch);
        space := RGB;
      }
      match ch
      case R => r := Some(x);
      case G => g := Some(x);
      case B => b := Some(x);
    }

    /**
     `recalculateHSV` and the switch to HSV that the setters of h, s and v begin with. The colour stays the same exactly
     when HSV has room for it; one undefined component makes all three so, and leaves the hue alone.
     */
    method EnterHsv()
      requires Valid()
      modifies this
      ensures Valid() && space == HSV
      ensures old(space) == HSV ==> h == old(h) && s == old(s) && v == old(v) && Denoted() == old(Denoted())
      ensures old(space) != HSV && old(Denoted()).Defined() ==>
                var c := old(Denoted()).Rgb();
                && (Denoted() == old(Denoted()) <==> FitsHsv(c))
                && (!FitsHsv(c) ==> Denoted() == Components(Some(0.0), Some(0.0), Some(0.0)))
                && h == (if RgbToHsv(c).h.Some? then RgbToHsv(c).h else if old(h).Some? then old(h) else Some(0.0))
                && (old(h).Some? && IsGrey(c) ==> h == old(h))
      ensures old(space) != HSV && !old(Denoted()).Defined() ==>
                Denoted() == Components(None, None, None) && h == if old(h).Some? then old(h) else Some(0.0)
    {
      hide RgbToHsv, HsvToRgb, InRange, FitsHsv;
      if space == HSV {
        return;
      }
      var red := Get(R);
      var green := Get(G);
      var blue := Get(B);
      var hue: Option<real> := None;
      if red.Some? && green.Some? && blue.Some? {
        var c := Rgb(red.value, green.value, blue.value);
        var z := RgbToHsv(c);
        RgbHsvRgb(c, if h.Some? then h.value else 0.0);
        GreysHaveNoHue(c);
        MisfitsTurnBlack(c, if h.Some? then h.value else 0.0);
        hue, s, v := z.h, Some(z.s), Some(z.v);
      } else {
        s, v := None, None;
      }
      if hue.Some? {
        h := hue;
      } else if h.None? {
        h := Some(0.0);
      }
      space := HSV;
    }

    /** Reading the packed colour switches to hex; the colour stays the same exactly when its components are bytes. */
    method GetHex() returns (value: bv32)
      requires Valid()
      modifies this
      ensures Valid() && space == HEX && value == hex
      ensures old(space) == HEX ==> value == old(hex)
      ensures old(space) != HEX ==>
                (Denoted() == old(Denoted()) <==>
                   var c := old(Denoted()); IsByte(c.r) && IsByte(c.g) && IsByte(c.b))
    {
      if space != HEX {
        var red := Get(R);
        var green := Get(G);
        var blue := Get(B);
        hex := RgbToHex(Word(red), Word(green), Word(blue));
        space := HEX;
        HexKeepsExactlyBytes(Components(red, green, blue));
      }
      value := hex;
    }
  }

  /** Setting one component of a fresh hex colour leaves the other two undefined. */
  method FreshHexLosesComponents(value: bv32, x: real) returns (c: Color)
    ensures c.Valid() && c.Denoted() == Components(Some(x), None, None)
  {
    c := new Color.FromHex(value);
    c.Set(R, x);
  }
}
