/** Pixel memory layouts and the C constants that stand for them. */
module Formats {
  import opened Common

  datatype MemoryFormat =
    | G8
    | G8a8
    | G8a8Premultiplied
    | G16
    | G16a16
    | G16a16Premultiplied
    | R8g8b8
    | R8g8b8a8
    | R8g8b8a8Premultiplied
    | B8g8r8
    | B8g8r8a8
    | B8g8r8a8Premultiplied
    | A8r8g8b8
    | A8r8g8b8Premultiplied
    | A8b8g8r8
    | R16g16b16
    | R16g16b16a16
    | R16g16b16a16Premultiplied
    | R16g16b16Float
    | R16g16b16a16Float
    | R32g32b32Float
    | R32g32b32a32Float
    | R32g32b32a32FloatPremultiplied

  function BytesPerPixel(f: MemoryFormat): (n: nat)
    ensures 1 <= n <= 16
  {
    match f
    case G8 => 1
    case G8a8 | G8a8Premultiplied | G16 => 2
    case R8g8b8 | B8g8r8 => 3
    case R8g8b8a8 | R8g8b8a8Premultiplied | B8g8r8a8 | B8g8r8a8Premultiplied => 4
    case A8r8g8b8 | A8r8g8b8Premultiplied | A8b8g8r8 => 4
    case G16a16 | G16a16Premultiplied => 4
    case R16g16b16 | R16g16b16Float => 6
    case R16g16b16a16 | R16g16b16a16Premultiplied | R16g16b16a16Float => 8
    case R32g32b32Float => 12
    case R32g32b32a32Float | R32g32b32a32FloatPremultiplied => 16
  }

  /** The layouts with 8-bit channels: exactly those that can be sampled. */
  predicate Is8Bit(f: MemoryFormat) {
    match f
    case G8 | G8a8 | G8a8Premultiplied | R8g8b8 | B8g8r8 => true
    case R8g8b8a8 | R8g8b8a8Premultiplied | B8g8r8a8 | B8g8r8a8Premultiplied => true
    case A8r8g8b8 | A8r8g8b8Premultiplied | A8b8g8r8 => true
    case _ => false
  }

  // ----- The C ABI constants -----

  const FORMAT_G8: u32 := 1
  const FORMAT_G8A8: u32 := 2
  const FORMAT_G8A8_PRE: u32 := 3
  const FORMAT_G16: u32 := 4
  const FORMAT_G16A16: u32 := 5
  const FORMAT_G16A16_PRE: u32 := 6
  const FORMAT_R8G8B8: u32 := 10
  const FORMAT_R8G8B8A8: u32 := 11
  const FORMAT_R8G8B8A8_PRE: u32 := 12
  const FORMAT_B8G8R8: u32 := 13
  const FORMAT_B8G8R8A8: u32 := 14
  const FORMAT_B8G8R8A8_PRE: u32 := 15
  const FORMAT_A8R8G8B8: u32 := 16
  const FORMAT_A8R8G8B8_PRE: u32 := 17
  const FORMAT_A8B8G8R8: u32 := 18
  const FORMAT_R16G16B16: u32 := 20
  const FORMAT_R16G16B16A16: u32 := 21
  const FORMAT_R16G16B16A16_PRE: u32 := 22
  const FORMAT_R16G16B16_F: u32 := 23
  const FORMAT_R16G16B16A16_F: u32 := 24
  const FORMAT_R32G32B32_F: u32 := 25
  const FORMAT_R32G32B32A32_F: u32 := 26
  const FORMAT_R32G32B32A32_F_PRE: u32 := 27

  function ToConstant(f: MemoryFormat): u32 {
    match f
    case G8 => FORMAT_G8
    case G8a8 => FORMAT_G8A8
    case G8a8Premultiplied => FORMAT_G8A8_PRE
    case G16 => FORMAT_G16
    case G16a16 => FORMAT_G16A16
    case G16a16Premultiplied => FORMAT_G16A16_PRE
    case R8g8b8 => FORMAT_R8G8B8
    case R8g8b8a8 => FORMAT_R8G8B8A8
    case R8g8b8a8Premultiplied => FORMAT_R8G8B8A8_PRE
    case B8g8r8 => FORMAT_B8G8R8
    case B8g8r8a8 => FORMAT_B8G8R8A8
    case B8g8r8a8Premultiplied => FORMAT_B8G8R8A8_PRE
    case A8r8g8b8 => FORMAT_A8R8G8B8
    case A8r8g8b8Premultiplied => FORMAT_A8R8G8B8_PRE
    case A8b8g8r8 => FORMAT_A8B8G8R8
    case R16g16b16 => FORMAT_R16G16B16
    case R16g16b16a16 => FORMAT_R16G16B16A16
    case R16g16b16a16Premultiplied => FORMAT_R16G16B16A16_PRE
    case R16g16b16Float => FORMAT_R16G16B16_F
    case R16g16b16a16Float => FORMAT_R16G16B16A16_F
    case R32g32b32Float => FORMAT_R32G32B32_F
    case R32g32b32a32Float => FORMAT_R32G32B32A32_F
    case R32g32b32a32FloatPremultiplied => FORMAT_R32G32B32A32_F_PRE
  }

  function FromConstant(c: u32): (r: Option<MemoryFormat>)
  {
    if c == FORMAT_G8 then Some(G8)
    else if c == FORMAT_G8A8 then Some(G8a8)
    else if c == FORMAT_G8A8_PRE then Some(G8a8Premultiplied)
    else if c == FORMAT_G16 then Some(G16)
    else if c == FORMAT_G16A16 then Some(G16a16)
    else if c == FORMAT_G16A16_PRE then Some(G16a16Premultiplied)
    else if c == FORMAT_R8G8B8 then Some(R8g8b8)
    else if c == FORMAT_R8G8B8A8 then Some(R8g8b8a8)
    else if c == FORMAT_R8G8B8A8_PRE then Some(R8g8b8a8Premultiplied)
    else if c == FORMAT_B8G8R8 then Some(B8g8r8)
    else if c == FORMAT_B8G8R8A8 then Some(B8g8r8a8)
    else if c == FORMAT_B8G8R8A8_PRE then Some(B8g8r8a8Premultiplied)
    else if c == FORMAT_A8R8G8B8 then Some(A8r8g8b8)
    else if c == FORMAT_A8R8G8B8_PRE then Some(A8r8g8b8Premultiplied)
    else if c == FORMAT_A8B8G8R8 then Some(A8b8g8r8)
    else if c == FORMAT_R16G16B16 then Some(R16g16b16)
    else if c == FORMAT_R16G16B16A16 then Some(R16g16b16a16)
    else if c == FORMAT_R16G16B16A16_PRE then Some(R16g16b16a16Premultiplied)
    else if c == FORMAT_R16G16B16_F then Some(R16g16b16Float)
    else if c == FORMAT_R16G16B16A16_F then Some(R16g16b16a16Float)
    else if c == FORMAT_R32G32B32_F then Some(R32g32b32Float)
    else if c == FORMAT_R32G32B32A32_F then Some(R32g32b32a32Float)
    else if c == FORMAT_R32G32B32A32_F_PRE then Some(R32g32b32a32FloatPremultiplied)
    else None
  }
}
