/** gcode_viewer/js/dat.gui.js, `ColorMath`: colour components packed into a 32-bit integer. */
module HexPacking {

  /** Shifts work on 32-bit integers; after the mask an arithmetic shift by at most 24 is a logical one. */
  function Left(x: bv32, i: nat): bv32
    requires i < 4
  {
    if i == 0 then x else if i == 1 then x << 8 else if i == 2 then x << 16 else x << 24
  }

  function Right(x: bv32, i: nat): bv32
    requires i < 4
  {
    if i == 0 then x else if i == 1 then x >> 8 else if i == 2 then x >> 16 else x >> 24
  }

  function ComponentFromHex(hex: bv32, i: nat): bv32
    requires i < 4
  {
    Right(hex, i) & 0xFF
  }

  function HexWithComponent(hex: bv32, i: nat, value: bv32): bv32
    requires i < 4
  {
    Left(value, i) | (hex & !Left(0xFF, i))
  }

  function RgbToHex(r: bv32, g: bv32, b: bv32): bv32 {
    HexWithComponent(HexWithComponent(HexWithComponent(0, 2, r), 1, g), 0, b)
  }

  lemma FitsByte(value: bv32)
    ensures value & 0xFF == value <==> value <= 0xFF
  {
  }

  lemma Byte0(hex: bv32, value: bv32)
    ensures ComponentFromHex(HexWithComponent(hex, 0, value), 0) == value & 0xFF
    ensures HexWithComponent(hex, 0, ComponentFromHex(hex, 0)) == hex
  {
  }

  lemma OtherBytes0(hex: bv32, value: bv32)
    ensures ComponentFromHex(HexWithComponent(hex, 0, value & 0xFF), 1) == ComponentFromHex(hex, 1)
    ensures ComponentFromHex(HexWithComponent(hex, 0, value & 0xFF), 2) == ComponentFromHex(hex, 2)
    ensures ComponentFromHex(HexWithComponent(hex, 0, value & 0xFF), 3) == ComponentFromHex(hex, 3)
  {
  }

  lemma Byte1(hex: bv32, value: bv32)
    ensures ComponentFromHex(HexWithComponent(hex, 1, value), 1) == value & 0xFF
    ensures HexWithComponent(hex, 1, ComponentFromHex(hex, 1)) == hex
  {
  }

  lemma OtherBytes1(hex: bv32, value: bv32)
    ensures ComponentFromHex(HexWithComponent(hex, 1, value & 0xFF), 0) == ComponentFromHex(hex, 0)
    ensures ComponentFromHex(HexWithComponent(hex, 1, value & 0xFF), 2) == ComponentFromHex(hex, 2)
    ensures ComponentFromHex(HexWithComponent(hex, 1, value & 0xFF), 3) == ComponentFromHex(hex, 3)
  {
  }

  lemma Byte2(hex: bv32, value: bv32)
    ensures ComponentFromHex(HexWithComponent(hex, 2, value), 2) == value & 0xFF
    ensures HexWithComponent(hex, 2, ComponentFromHex(hex, 2)) == hex
  {
  }

  lemma OtherBytes2(hex: bv32, value: bv32)
    ensures ComponentFromHex(HexWithComponent(hex, 2, value & 0xFF), 0) == ComponentFromHex(hex, 0)
    ensures ComponentFromHex(HexWithComponent(hex, 2, value & 0xFF), 1) == ComponentFromHex(hex, 1)
    ensures ComponentFromHex(HexWithComponent(hex, 2, value & 0xFF), 3) == ComponentFromHex(hex, 3)
  {
  }

  lemma Byte3(hex: bv32, value: bv32)
    ensures ComponentFromHex(HexWithComponent(hex, 3, value), 3) == value & 0xFF
    ensures HexWithComponent(hex, 3, ComponentFromHex(hex, 3)) == hex
  {
  }

  lemma OtherBytes3(hex: bv32, value: bv32)
    ensures ComponentFromHex(HexWithComponent(hex, 3, value & 0xFF), 0) == ComponentFromHex(hex, 0)
    ensures ComponentFromHex(HexWithComponent(hex, 3, value & 0xFF), 1) == ComponentFromHex(hex, 1)
    ensures ComponentFromHex(HexWithComponent(hex, 3, value & 0xFF), 2) == ComponentFromHex(hex, 2)
  {
  }

  /** What is written is read back exactly when it fits a byte, and writing back what was read changes nothing. */
  lemma WrittenComponentIsRead(hex: bv32, i: nat, value: bv32)
    requires i < 4
    ensures ComponentFromHex(HexWithComponent(hex, i, value), i) == value <==> value <= 0xFF
    ensures HexWithComponent(hex, i, ComponentFromHex(hex, i)) == hex
  {
    FitsByte(value);
    hide ComponentFromHex, HexWithComponent;
    if i == 0 { Byte0(hex, value); } else if i == 1 { Byte1(hex, value); }
    else if i == 2 { Byte2(hex, value); } else { Byte3(hex, value); }
  }

  /** A byte written leaves the other components alone. */
  lemma OtherComponentsAreKept(hex: bv32, i: nat, j: nat, value: bv32)
    requires i < 4 && j < 4 && i != j && value <= 0xFF
    ensures ComponentFromHex(HexWithComponent(hex, i, value), j) == ComponentFromHex(hex, j)
  {
    FitsByte(value);
    hide ComponentFromHex, HexWithComponent;
    if i == 0 { OtherBytes0(hex, value); } else if i == 1 { OtherBytes1(hex, value); }
    else if i == 2 { OtherBytes2(hex, value); } else { OtherBytes3(hex, value); }
  }

  /** The packed colour of three bytes: red highest, blue lowest, as in CSS. */
  lemma HexLayout(r: bv32, g: bv32, b: bv32)
    requires r <= 0xFF && g <= 0xFF && b <= 0xFF
    ensures RgbToHex(r, g, b) == (r << 16) | (g << 8) | b
  {
  }

  lemma RgbToHexHoldsAll(r: bv32, g: bv32, b: bv32)
    requires r <= 0xFF && g <= 0xFF && b <= 0xFF
    ensures var hex := RgbToHex(r, g, b);
      ComponentFromHex(hex, 2) == r && ComponentFromHex(hex, 1) == g && ComponentFromHex(hex, 0) == b
  {
    hide HexWithComponent, ComponentFromHex;
    var one := HexWithComponent(0, 2, r);
    var two := HexWithComponent(one, 1, g);
    WrittenComponentIsRead(0, 2, r);
    WrittenComponentIsRead(one, 1, g);
    WrittenComponentIsRead(two, 0, b);
    OtherComponentsAreKept(one, 1, 2, g);
    OtherComponentsAreKept(two, 0, 2, b);
    OtherComponentsAreKept(two, 0, 1, b);
  }
}
