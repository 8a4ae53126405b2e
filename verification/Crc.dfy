/**
 * The table-driven CRC-16-CCITT and CRC-32 of the configuration format, against bit-at-a-time
 * polynomial division.
 */
module Crc {
  import opened Octets

  // ---------------------------------------------------------------------------
  // Lookup tables, as a search on the index; each leaf holds eight consecutive entries
  // ---------------------------------------------------------------------------

  function OneOf<T>(k: byte, a: T, b: T, c: T, d: T, e: T, f: T, g: T, h: T): T {
    if k < 4 then (if k < 2 then (if k < 1 then a else b) else (if k < 3 then c else d))
    else (if k < 6 then (if k < 5 then e else f) else (if k < 7 then g else h))
  }

  function Crc16Table(i: byte): bv16 {
    if i < 128 then
      if i < 64 then
        if i < 32 then
          if i < 16 then
            if i < 8 then
              OneOf(i & 7, 0x0000, 0x1021, 0x2042, 0x3063, 0x4084, 0x50A5, 0x60C6, 0x70E7)
            else
              OneOf(i & 7, 0x8108, 0x9129, 0xA14A, 0xB16B, 0xC18C, 0xD1AD, 0xE1CE, 0xF1EF)
          else
            if i < 24 then
              OneOf(i & 7, 0x1231, 0x0210, 0x3273, 0x2252, 0x52B5, 0x4294, 0x72F7, 0x62D6)
            else
              OneOf(i & 7, 0x9339, 0x8318, 0xB37B, 0xA35A, 0xD3BD, 0xC39C, 0xF3FF, 0xE3DE)
        else
          if i < 48 then
            if i < 40 then
              OneOf(i & 7, 0x2462, 0x3443, 0x0420, 0x1401, 0x64E6, 0x74C7, 0x44A4, 0x5485)
            else
              OneOf(i & 7, 0xA56A, 0xB54B, 0x8528, 0x9509, 0xE5EE, 0xF5CF, 0xC5AC, 0xD58D)
          else
            if i < 56 then
              OneOf(i & 7, 0x3653, 0x2672, 0x1611, 0x0630, 0x76D7, 0x66F6, 0x5695, 0x46B4)
            else
              OneOf(i & 7, 0xB75B, 0xA77A, 0x9719, 0x8738, 0xF7DF, 0xE7FE, 0xD79D, 0xC7BC)
      else
        if i < 96 then
          if i < 80 then
            if i < 72 then
              OneOf(i & 7, 0x48C4, 0x58E5, 0x6886, 0x78A7, 0x0840, 0x1861, 0x2802, 0x3823)
            else
              OneOf(i & 7, 0xC9CC, 0xD9ED, 0xE98E, 0xF9AF, 0x8948, 0x9969, 0xA90A, 0xB92B)
          else
            if i < 88 then
              OneOf(i & 7, 0x5AF5, 0x4AD4, 0x7AB7, 0x6A96, 0x1A71, 0x0A50, 0x3A33, 0x2A12)
            else
              OneOf(i & 7, 0xDBFD, 0xCBDC, 0xFBBF, 0xEB9E, 0x9B79, 0x8B58, 0xBB3B, 0xAB1A)
        else
          if i < 112 then
            if i < 104 then
              OneOf(i & 7, 0x6CA6, 0x7C87, 0x4CE4, 0x5CC5, 0x2C22, 0x3C03, 0x0C60, 0x1C41)
            else
              OneOf(i & 7, 0xEDAE, 0xFD8F, 0xCDEC, 0xDDCD, 0xAD2A, 0xBD0B, 0x8D68, 0x9D49)
          else
            if i < 120 then
              OneOf(i & 7, 0x7E97, 0x6EB6, 0x5ED5, 0x4EF4, 0x3E13, 0x2E32, 0x1E51, 0x0E70)
            else
              OneOf(i & 7, 0xFF9F, 0xEFBE, 0xDFDD, 0xCFFC, 0xBF1B, 0xAF3A, 0x9F59, 0x8F78)
    else
      if i < 192 then
        if i < 160 then
          if i < 144 then
            if i < 136 then
              OneOf(i & 7, 0x9188, 0x81A9, 0xB1CA, 0xA1EB, 0xD10C, 0xC12D, 0xF14E, 0xE16F)
            else
              OneOf(i & 7, 0x1080, 0x00A1, 0x30C2, 0x20E3, 0x5004, 0x4025, 0x7046, 0x6067)
          else
            if i < 152 then
              OneOf(i & 7, 0x83B9, 0x9398, 0xA3FB, 0xB3DA, 0xC33D, 0xD31C, 0xE37F, 0xF35E)
            else
              OneOf(i & 7, 0x02B1, 0x1290, 0x22F3, 0x32D2, 0x4235, 0x5214, 0x6277, 0x7256)
        else
          if i < 176 then
            if i < 168 then
              OneOf(i & 7, 0xB5EA, 0xA5CB, 0x95A8, 0x8589, 0xF56E, 0xE54F, 0xD52C, 0xC50D)
            else
              OneOf(i & 7, 0x34E2, 0x24C3, 0x14A0, 0x0481, 0x7466, 0x6447, 0x5424, 0x4405)
          else
            if i < 184 then
              OneOf(i & 7, 0xA7DB, 0xB7FA, 0x8799, 0x97B8, 0xE75F, 0xF77E, 0xC71D, 0xD73C)
            else
              OneOf(i & 7, 0x26D3, 0x36F2, 0x0691, 0x16B0, 0x6657, 0x7676, 0x4615, 0x5634)
      else
        if i < 224 then
          if i < 208 then
            if i < 200 then
              OneOf(i & 7, 0xD94C, 0xC96D, 0xF90E, 0xE92F, 0x99C8, 0x89E9, 0xB98A, 0xA9AB)
            else
              OneOf(i & 7, 0x5844, 0x4865, 0x7806, 0x6827, 0x18C0, 0x08E1, 0x3882, 0x28A3)
          else
            if i < 216 then
              OneOf(i & 7, 0xCB7D, 0xDB5C, 0xEB3F, 0xFB1E, 0x8BF9, 0x9BD8, 0xABBB, 0xBB9A)
            else
              OneOf(i & 7, 0x4A75, 0x5A54, 0x6A37, 0x7A16, 0x0AF1, 0x1AD0, 0x2AB3, 0x3A92)
        else
          if i < 240 then
            if i < 232 then
              OneOf(i & 7, 0xFD2E, 0xED0F, 0xDD6C, 0xCD4D, 0xBDAA, 0xAD8B, 0x9DE8, 0x8DC9)
            else
              OneOf(i & 7, 0x7C26, 0x6C07, 0x5C64, 0x4C45, 0x3CA2, 0x2C83, 0x1CE0, 0x0CC1)
          else
            if i < 248 then
              OneOf(i & 7, 0xEF1F, 0xFF3E, 0xCF5D, 0xDF7C, 0xAF9B, 0xBFBA, 0x8FD9, 0x9FF8)
            else
              OneOf(i & 7, 0x6E17, 0x7E36, 0x4E55, 0x5E74, 0x2E93, 0x3EB2, 0x0ED1, 0x1EF0)
  }

  function Crc32Table(i: byte): bv32 {
    if i < 128 then
      if i < 64 then
        if i < 32 then
          if i < 16 then
            if i < 8 then
              OneOf(i & 7, 0x00000000, 0x77073096, 0xEE0E612C, 0x990951BA, 0x076DC419, 0x706AF48F, 0xE963A535, 0x9E6495A3)
            else
              OneOf(i & 7, 0x0EDB8832, 0x79DCB8A4, 0xE0D5E91E, 0x97D2D988, 0x09B64C2B, 0x7EB17CBD, 0xE7B82D07, 0x90BF1D91)
          else
            if i < 24 then
              OneOf(i & 7, 0x1DB71064, 0x6AB020F2, 0xF3B97148, 0x84BE41DE, 0x1ADAD47D, 0x6DDDE4EB, 0xF4D4B551, 0x83D385C7)
            else
              OneOf(i & 7, 0x136C9856, 0x646BA8C0, 0xFD62F97A, 0x8A65C9EC, 0x14015C4F, 0x63066CD9, 0xFA0F3D63, 0x8D080DF5)
        else
          if i < 48 then
            if i < 40 then
              OneOf(i & 7, 0x3B6E20C8, 0x4C69105E, 0xD56041E4, 0xA2677172, 0x3C03E4D1, 0x4B04D447, 0xD20D85FD, 0xA50AB56B)
            else
              OneOf(i & 7, 0x35B5A8FA, 0x42B2986C, 0xDBBBC9D6, 0xACBCF940, 0x32D86CE3, 0x45DF5C75, 0xDCD60DCF, 0xABD13D59)
          else
            if i < 56 then
              OneOf(i & 7, 0x26D930AC, 0x51DE003A, 0xC8D75180, 0xBFD06116, 0x21B4F4B5, 0x56B3C423, 0xCFBA9599, 0xB8BDA50F)
            else
              OneOf(i & 7, 0x2802B89E, 0x5F058808, 0xC60CD9B2, 0xB10BE924, 0x2F6F7C87, 0x58684C11, 0xC1611DAB, 0xB6662D3D)
      else
        if i < 96 then
          if i < 80 then
            if i < 72 then
              OneOf(i & 7, 0x76DC4190, 0x01DB7106, 0x98D220BC, 0xEFD5102A, 0x71B18589, 0x06B6B51F, 0x9FBFE4A5, 0xE8B8D433)
            else
              OneOf(i & 7, 0x7807C9A2, 0x0F00F934, 0x9609A88E, 0xE10E9818, 0x7F6A0DBB, 0x086D3D2D, 0x91646C97, 0xE6635C01)
          else
            if i < 88 then
              OneOf(i & 7, 0x6B6B51F4, 0x1C6C6162, 0x856530D8, 0xF262004E, 0x6C0695ED, 0x1B01A57B, 0x8208F4C1, 0xF50FC457)
            else
              OneOf(i & 7, 0x65B0D9C6, 0x12B7E950, 0x8BBEB8EA, 0xFCB9887C, 0x62DD1DDF, 0x15DA2D49, 0x8CD37CF3, 0xFBD44C65)
        else
          if i < 112 then
            if i < 104 then
              OneOf(i & 7, 0x4DB26158, 0x3AB551CE, 0xA3BC0074, 0xD4BB30E2, 0x4ADFA541, 0x3DD895D7, 0xA4D1C46D, 0xD3D6F4FB)
            else
              OneOf(i & 7, 0x4369E96A, 0x346ED9FC, 0xAD678846, 0xDA60B8D0, 0x44042D73, 0x33031DE5, 0xAA0A4C5F, 0xDD0D7CC9)
          else
            if i < 120 then
              OneOf(i & 7, 0x5005713C, 0x270241AA, 0xBE0B1010, 0xC90C2086, 0x5768B525, 0x206F85B3, 0xB966D409, 0xCE61E49F)
            else
              OneOf(i & 7, 0x5EDEF90E, 0x29D9C998, 0xB0D09822, 0xC7D7A8B4, 0x59B33D17, 0x2EB40D81, 0xB7BD5C3B, 0xC0BA6CAD)
    else
      if i < 192 then
        if i < 160 then
          if i < 144 then
            if i < 136 then
              OneOf(i & 7, 0xEDB88320, 0x9ABFB3B6, 0x03B6E20C, 0x74B1D29A, 0xEAD54739, 0x9DD277AF, 0x04DB2615, 0x73DC1683)
            else
              OneOf(i & 7, 0xE3630B12, 0x94643B84, 0x0D6D6A3E, 0x7A6A5AA8, 0xE40ECF0B, 0x9309FF9D, 0x0A00AE27, 0x7D079EB1)
          else
            if i < 152 then
              OneOf(i & 7, 0xF00F9344, 0x8708A3D2, 0x1E01F268, 0x6906C2FE, 0xF762575D, 0x806567CB, 0x196C3671, 0x6E6B06E7)
            else
              OneOf(i & 7, 0xFED41B76, 0x89D32BE0, 0x10DA7A5A, 0x67DD4ACC, 0xF9B9DF6F, 0x8EBEEFF9, 0x17B7BE43, 0x60B08ED5)
        else
          if i < 176 then
            if i < 168 then
              OneOf(i & 7, 0xD6D6A3E8, 0xA1D1937E, 0x38D8C2C4, 0x4FDFF252, 0xD1BB67F1, 0xA6BC5767, 0x3FB506DD, 0x48B2364B)
            else
              OneOf(i & 7, 0xD80D2BDA, 0xAF0A1B4C, 0x36034AF6, 0x41047A60, 0xDF60EFC3, 0xA867DF55, 0x316E8EEF, 0x4669BE79)
          else
            if i < 184 then
              OneOf(i & 7, 0xCB61B38C, 0xBC66831A, 0x256FD2A0, 0x5268E236, 0xCC0C7795, 0xBB0B4703, 0x220216B9, 0x5505262F)
            else
              OneOf(i & 7, 0xC5BA3BBE, 0xB2BD0B28, 0x2BB45A92, 0x5CB36A04, 0xC2D7FFA7, 0xB5D0CF31, 0x2CD99E8B, 0x5BDEAE1D)
      else
        if i < 224 then
          if i < 208 then
            if i < 200 then
              OneOf(i & 7, 0x9B64C2B0, 0xEC63F226, 0x756AA39C, 0x026D930A, 0x9C0906A9, 0xEB0E363F, 0x72076785, 0x05005713)
            else
              OneOf(i & 7, 0x95BF4A82, 0xE2B87A14, 0x7BB12BAE, 0x0CB61B38, 0x92D28E9B, 0xE5D5BE0D, 0x7CDCEFB7, 0x0BDBDF21)
          else
            if i < 216 then
              OneOf(i & 7, 0x86D3D2D4, 0xF1D4E242, 0x68DDB3F8, 0x1FDA836E, 0x81BE16CD, 0xF6B9265B, 0x6FB077E1, 0x18B74777)
            else
              OneOf(i & 7, 0x88085AE6, 0xFF0F6A70, 0x66063BCA, 0x11010B5C, 0x8F659EFF, 0xF862AE69, 0x616BFFD3, 0x166CCF45)
        else
          if i < 240 then
            if i < 232 then
              OneOf(i & 7, 0xA00AE278, 0xD70DD2EE, 0x4E048354, 0x3903B3C2, 0xA7672661, 0xD06016F7, 0x4969474D, 0x3E6E77DB)
            else
              OneOf(i & 7, 0xAED16A4A, 0xD9D65ADC, 0x40DF0B66, 0x37D83BF0, 0xA9BCAE53, 0xDEBB9EC5, 0x47B2CF7F, 0x30B5FFE9)
          else
            if i < 248 then
              OneOf(i & 7, 0xBDBDF21C, 0xCABAC28A, 0x53B39330, 0x24B4A3A6, 0xBAD03605, 0xCDD70693, 0x54DE5729, 0x23D967BF)
            else
              OneOf(i & 7, 0xB3667A2E, 0xC4614AB8, 0x5D681B02, 0x2A6F2B94, 0xB40BBE37, 0xC30C8EA1, 0x5A05DF1B, 0x2D02EF8D)
  }

  // ---------------------------------------------------------------------------
  // The reference: dividing one bit at a time
  // ---------------------------------------------------------------------------

  function Xor16(a: bv16, b: bv16): bv16 { a ^ b }

  function Shift16(c: bv16): bv16 { c << 1 }

  predicate Out16(c: bv16) { c & 0x8000 != 0 }

  /** One bit of division by x^16 + x^12 + x^5 + 1, most significant bit first. */
  function Divide16(c: bv16): bv16 { if Out16(c) then Xor16(Shift16(c), 0x1021) else Shift16(c) }

  function Xor32(a: bv32, b: bv32): bv32 { a ^ b }

  function Shift32(c: bv32): bv32 { c >> 1 }

  predicate Out32(c: bv32) { c & 1 != 0 }

  /** One bit of division by the reflected polynomial 0x04C11DB7, least significant bit first. */
  function Divide32(c: bv32): bv32 { if Out32(c) then Xor32(Shift32(c), 0xEDB88320) else Shift32(c) }

  function Divide16Octet(c: bv16): bv16 {
    Divide16(Divide16(Divide16(Divide16(Divide16(Divide16(Divide16(Divide16(c))))))))
  }

  function Divide32Octet(c: bv32): bv32 {
    Divide32(Divide32(Divide32(Divide32(Divide32(Divide32(Divide32(Divide32(c))))))))
  }

  /** An octet as it is brought into the register. */
  function Input16(b: byte): bv16 { (b as bv16) << 8 }

  function Input32(b: byte): bv32 { b as bv32 }

  /** Bringing one more octet of data into the division. */
  function Feed16(c: bv16, b: byte): bv16 { Divide16Octet(Xor16(c, Input16(b))) }

  function Feed32(c: bv32, b: byte): bv32 { Divide32Octet(Xor32(c, Input32(b))) }

  ghost function Crc16Bits(data: seq<byte>): bv16 {
    if data == [] then 0xFFFF else Feed16(Crc16Bits(data[..|data| - 1]), data[|data| - 1])
  }

  /** The register of the CRC-32 division, before the final complement. */
  ghost function Crc32Register(data: seq<byte>): bv32 {
    if data == [] then 0xFFFF_FFFF else Feed32(Crc32Register(data[..|data| - 1]), data[|data| - 1])
  }

  ghost function Crc32Bits(data: seq<byte>): bv32 { Xor32(Crc32Register(data), 0xFFFF_FFFF) }

  // ---------------------------------------------------------------------------
  // The table-driven loops
  // ---------------------------------------------------------------------------

  function Index16(crc: bv16, b: byte): byte { (crc >> 8) as byte ^ b }

  function Index32(crc: bv32, b: byte): byte { ((crc ^ (b as bv32)) & 0xFF) as byte }

  function Step16(crc: bv16, b: byte): bv16 { Xor16(crc << 8, Crc16Table(Index16(crc, b))) }

  function Step32(crc: bv32, b: byte): bv32 { Xor32(crc >> 8, Crc32Table(Index32(crc, b))) }

  method Crc16Ccitt(data: seq<byte>) returns (crc: bv16)
    ensures crc == Crc16Bits(data)
  {
    hide Step16, Feed16;
    crc := 0xFFFF;
    for n := 0 to |data|
      invariant crc == Crc16Bits(data[..n])
    {
      assert data[..n + 1][..n] == data[..n];
      Step16Divides(crc, data[n]);
      crc := Step16(crc, data[n]);
    }
    assert data[..|data|] == data;
  }

  method Crc32(data: seq<byte>) returns (crc: bv32)
    ensures crc == Crc32Bits(data)
  {
    hide Step32, Feed32, Xor32;
    crc := 0xFFFF_FFFF;
    for n := 0 to |data|
      invariant crc == Crc32Register(data[..n])
    {
      assert data[..n + 1][..n] == data[..n];
      Step32Divides(crc, data[n]);
      crc := Step32(crc, data[n]);
    }
    assert data[..|data|] == data;
    crc := Xor32(crc, 0xFFFF_FFFF);
  }

  /** The case split follows the bits in the order in which the division meets them. */
  lemma LowerTable16(i: byte)
    requires i < 128
    ensures Crc16Table(i) == Divide16Octet(Input16(i))
  {
    if i < 64 {
      if i < 32 {
      } else {
      }
    } else {
      if i < 96 {
      } else {
      }
    }
  }

  lemma UpperTable16(i: byte)
    requires i >= 128
    ensures Crc16Table(i) == Divide16Octet(Input16(i))
  {
    if i < 192 {
      if i < 160 {
      } else {
      }
    } else {
      if i < 224 {
      } else {
      }
    }
  }

  /** Every entry of the CRC-16 table is the division of its index. */
  lemma Table16Entry(i: byte)
    ensures Crc16Table(i) == Divide16Octet(Input16(i))
  {
    hide Crc16Table, Divide16Octet;
    if i < 128 {
      LowerTable16(i);
    } else {
      UpperTable16(i);
    }
  }

  lemma EvenTable32(i: byte)
    requires i & 1 == 0
    ensures Crc32Table(i) == Divide32Octet(i as bv32)
  {
    if i & 2 == 0 {
      if i & 4 == 0 {
      } else {
      }
    } else {
      if i & 4 == 0 {
      } else {
      }
    }
  }

  lemma OddTable32(i: byte)
    requires i & 1 != 0
    ensures Crc32Table(i) == Divide32Octet(i as bv32)
  {
    if i & 2 == 0 {
      if i & 4 == 0 {
      } else {
      }
    } else {
      if i & 4 == 0 {
      } else {
      }
    }
  }

  /** Every entry of the CRC-32 table is the division of its index. */
  lemma Table32Entry(i: byte)
    ensures Crc32Table(i) == Divide32Octet(i as bv32)
  {
    hide Crc32Table, Divide32Octet;
    if i & 1 == 0 {
      EvenTable32(i);
    } else {
      OddTable32(i);
    }
  }

  lemma Xor16Laws(a: bv16, b: bv16, c: bv16)
    ensures Xor16(Xor16(a, b), c) == Xor16(a, Xor16(b, c))
    ensures Shift16(Xor16(a, b)) == Xor16(Shift16(a), Shift16(b))
  {
  }

  lemma Out16OfXor(a: bv16, b: bv16)
    requires !Out16(a)
    ensures Out16(Xor16(a, b)) == Out16(b)
  {
  }

  /** A part of the register that does not reach the feedback is only shifted. */
  lemma Bypass16(a: bv16, b: bv16)
    requires !Out16(a)
    ensures Divide16(Xor16(a, b)) == Xor16(Shift16(a), Divide16(b))
  {
    hide Xor16, Shift16, Out16;
    Out16OfXor(a, b);
    Xor16Laws(a, b, 0);
    Xor16Laws(Shift16(a), Shift16(b), 0x1021);
  }

  lemma EightShifts16(a: bv16)
    requires a & 0xFF00 == 0
    ensures !Out16(a)
    ensures var a1 := Shift16(a); var a2 := Shift16(a1); var a3 := Shift16(a2); var a4 := Shift16(a3);
      var a5 := Shift16(a4); var a6 := Shift16(a5); var a7 := Shift16(a6);
      && !Out16(a1) && !Out16(a2) && !Out16(a3) && !Out16(a4) && !Out16(a5) && !Out16(a6) && !Out16(a7)
      && Shift16(a7) == a << 8
  {
  }

  lemma BypassOctet16(a: bv16, b: bv16)
    requires a & 0xFF00 == 0
    ensures Divide16Octet(Xor16(a, b)) == Xor16(a << 8, Divide16Octet(b))
  {
    EightShifts16(a);
    hide Divide16, Xor16, Shift16, Out16;
    var x, y := a, b;
    Bypass16(x, y);
    x, y := Shift16(x), Divide16(y);
    Bypass16(x, y);
    x, y := Shift16(x), Divide16(y);
    Bypass16(x, y);
    x, y := Shift16(x), Divide16(y);
    Bypass16(x, y);
    x, y := Shift16(x), Divide16(y);
    Bypass16(x, y);
    x, y := Shift16(x), Divide16(y);
    Bypass16(x, y);
    x, y := Shift16(x), Divide16(y);
    Bypass16(x, y);
    x, y := Shift16(x), Divide16(y);
    Bypass16(x, y);
  }

  lemma SplitInput16(c: bv16, b: byte)
    ensures Xor16(c, Input16(b)) == Xor16(c & 0x00FF, Input16(Index16(c, b)))
  {
    assert c == (c & 0x00FF) ^ (((c >> 8) as byte as bv16) << 8);
    assert ((((c >> 8) as byte) ^ b) as bv16) << 8 == (((c >> 8) as byte as bv16) << 8) ^ ((b as bv16) << 8);
  }

  lemma LowOctet16(c: bv16)
    ensures (c & 0x00FF) & 0xFF00 == 0 && (c & 0x00FF) << 8 == c << 8
  {
  }

  /** One step of the table-driven loop divides one octet. */
  lemma Step16Divides(c: bv16, b: byte)
    ensures Step16(c, b) == Feed16(c, b)
  {
    hide Divide16Octet, Crc16Table, Xor16, Index16;
    var i := Index16(c, b);
    SplitInput16(c, b);
    LowOctet16(c);
    Table16Entry(i);
    BypassOctet16(c & 0x00FF, Input16(i));
  }

  lemma Xor32Laws(a: bv32, b: bv32, c: bv32)
    ensures Xor32(Xor32(a, b), c) == Xor32(a, Xor32(b, c))
    ensures Shift32(Xor32(a, b)) == Xor32(Shift32(a), Shift32(b))
  {
  }

  lemma Out32OfXor(a: bv32, b: bv32)
    requires !Out32(a)
    ensures Out32(Xor32(a, b)) == Out32(b)
  {
  }

  /** A part of the register that does not reach the feedback is only shifted. */
  lemma Bypass32(a: bv32, b: bv32)
    requires !Out32(a)
    ensures Divide32(Xor32(a, b)) == Xor32(Shift32(a), Divide32(b))
  {
    hide Xor32, Shift32, Out32;
    Out32OfXor(a, b);
    Xor32Laws(a, b, 0);
    Xor32Laws(Shift32(a), Shift32(b), 0xEDB88320);
  }

  lemma EightShifts32(a: bv32)
    requires a & 0xFF == 0
    ensures !Out32(a)
    ensures var a1 := Shift32(a); var a2 := Shift32(a1); var a3 := Shift32(a2); var a4 := Shift32(a3);
      var a5 := Shift32(a4); var a6 := Shift32(a5); var a7 := Shift32(a6);
      && !Out32(a1) && !Out32(a2) && !Out32(a3) && !Out32(a4) && !Out32(a5) && !Out32(a6) && !Out32(a7)
      && Shift32(a7) == a >> 8
  {
  }

  lemma BypassOctet32(a: bv32, b: bv32)
    requires a & 0xFF == 0
    ensures Divide32Octet(Xor32(a, b)) == Xor32(a >> 8, Divide32Octet(b))
  {
    EightShifts32(a);
    hide Divide32, Xor32, Shift32, Out32;
    var x, y := a, b;
    Bypass32(x, y);
    x, y := Shift32(x), Divide32(y);
    Bypass32(x, y);
    x, y := Shift32(x), Divide32(y);
    Bypass32(x, y);
    x, y := Shift32(x), Divide32(y);
    Bypass32(x, y);
    x, y := Shift32(x), Divide32(y);
    Bypass32(x, y);
    x, y := Shift32(x), Divide32(y);
    Bypass32(x, y);
    x, y := Shift32(x), Divide32(y);
    Bypass32(x, y);
    x, y := Shift32(x), Divide32(y);
    Bypass32(x, y);
  }

  lemma SplitInput32(c: bv32, b: byte)
    ensures Xor32(c, b as bv32) == Xor32(c & 0xFFFF_FF00, Index32(c, b) as bv32)
    ensures (c & 0xFFFF_FF00) & 0xFF == 0 && (c & 0xFFFF_FF00) >> 8 == c >> 8
  {
  }

  lemma Step32Divides(c: bv32, b: byte)
    ensures Step32(c, b) == Feed32(c, b)
  {
    hide Divide32Octet, Crc32Table, Xor32, Index32;
    var i := Index32(c, b);
    SplitInput32(c, b);
    Table32Entry(i);
    BypassOctet32(c & 0xFFFF_FF00, i as bv32);
  }

  // ---------------------------------------------------------------------------
  // Error detection
  // ---------------------------------------------------------------------------

  /** Division loses nothing: the polynomial has both end coefficients set. */
  lemma Divide16Injective(a: bv16, b: bv16)
    requires a != b
    ensures Divide16(a) != Divide16(b)
  {
    if Out16(a) {
      if Out16(b) {
      } else {
      }
    } else {
      if Out16(b) {
      } else {
      }
    }
  }

  lemma Octet16Injective(a: bv16, b: bv16)
    requires a != b
    ensures Divide16Octet(a) != Divide16Octet(b)
  {
    hide Divide16;
    var x, y := a, b;
    Divide16Injective(x, y);
    x, y := Divide16(x), Divide16(y);
    Divide16Injective(x, y);
    x, y := Divide16(x), Divide16(y);
    Divide16Injective(x, y);
    x, y := Divide16(x), Divide16(y);
    Divide16Injective(x, y);
    x, y := Divide16(x), Divide16(y);
    Divide16Injective(x, y);
    x, y := Divide16(x), Divide16(y);
    Divide16Injective(x, y);
    x, y := Divide16(x), Divide16(y);
    Divide16Injective(x, y);
    x, y := Divide16(x), Divide16(y);
    Divide16Injective(x, y);
  }

  lemma Cancel16(c: bv16, d: bv16, x: bv16)
    requires c != d
    ensures Xor16(c, x) != Xor16(d, x) && Xor16(x, c) != Xor16(x, d)
  {
  }

  lemma Input16Injective(a: byte, b: byte)
    requires a != b
    ensures Input16(a) != Input16(b)
  {
  }

  lemma Feed16Injective(c: bv16, d: bv16, a: byte, b: byte)
    requires (c != d && a == b) || (c == d && a != b)
    ensures Feed16(c, a) != Feed16(d, b)
  {
    hide Divide16Octet, Xor16, Input16;
    if c != d {
      Cancel16(c, d, Input16(a));
    } else {
      Input16Injective(a, b);
      Cancel16(Input16(a), Input16(b), c);
    }
    Octet16Injective(Xor16(c, Input16(a)), Xor16(d, Input16(b)));
  }

  /** CRC-16 sees every change of a single octet, in data of any length. */
  lemma {:induction false} Crc16DetectsOctet(data: seq<byte>, i: nat, b: byte)
    requires i < |data| && b != data[i]
    ensures Crc16Bits(data[i := b]) != Crc16Bits(data)
  {
    hide Feed16;
    var n := |data| - 1;
    if i == n {
      assert data[i := b][..n] == data[..n];
      Feed16Injective(Crc16Bits(data[..n]), Crc16Bits(data[..n]), b, data[n]);
    } else {
      assert data[i := b][..n] == data[..n][i := b];
      Crc16DetectsOctet(data[..n], i, b);
      Feed16Injective(Crc16Bits(data[..n][i := b]), Crc16Bits(data[..n]), data[n], data[n]);
    }
  }

  /** Division loses nothing: the polynomial has both end coefficients set. */
  lemma Divide32Injective(a: bv32, b: bv32)
    requires a != b
    ensures Divide32(a) != Divide32(b)
  {
    if Out32(a) {
      if Out32(b) {
      } else {
      }
    } else {
      if Out32(b) {
      } else {
      }
    }
  }

  lemma Octet32Injective(a: bv32, b: bv32)
    requires a != b
    ensures Divide32Octet(a) != Divide32Octet(b)
  {
    hide Divide32;
    var x, y := a, b;
    Divide32Injective(x, y);
    x, y := Divide32(x), Divide32(y);
    Divide32Injective(x, y);
    x, y := Divide32(x), Divide32(y);
    Divide32Injective(x, y);
    x, y := Divide32(x), Divide32(y);
    Divide32Injective(x, y);
    x, y := Divide32(x), Divide32(y);
    Divide32Injective(x, y);
    x, y := Divide32(x), Divide32(y);
    Divide32Injective(x, y);
    x, y := Divide32(x), Divide32(y);
    Divide32Injective(x, y);
    x, y := Divide32(x), Divide32(y);
    Divide32Injective(x, y);
  }

  lemma Cancel32(c: bv32, d: bv32, x: bv32)
    requires c != d
    ensures Xor32(c, x) != Xor32(d, x) && Xor32(x, c) != Xor32(x, d)
  {
  }

  lemma Input32Injective(a: byte, b: byte)
    requires a != b
    ensures Input32(a) != Input32(b)
  {
  }

  lemma Feed32Injective(c: bv32, d: bv32, a: byte, b: byte)
    requires (c != d && a == b) || (c == d && a != b)
    ensures Feed32(c, a) != Feed32(d, b)
  {
    hide Divide32Octet, Xor32, Input32;
    if c != d {
      Cancel32(c, d, Input32(a));
    } else {
      Input32Injective(a, b);
      Cancel32(Input32(a), Input32(b), c);
    }
    Octet32Injective(Xor32(c, Input32(a)), Xor32(d, Input32(b)));
  }

  /** So does the register of CRC-32. */
  lemma {:induction false} RegisterDetectsOctet(data: seq<byte>, i: nat, b: byte)
    requires i < |data| && b != data[i]
    ensures Crc32Register(data[i := b]) != Crc32Register(data)
  {
    hide Feed32;
    var n := |data| - 1;
    if i == n {
      assert data[i := b][..n] == data[..n];
      Feed32Injective(Crc32Register(data[..n]), Crc32Register(data[..n]), b, data[n]);
    } else {
      assert data[i := b][..n] == data[..n][i := b];
      RegisterDetectsOctet(data[..n], i, b);
      Feed32Injective(Crc32Register(data[..n][i := b]), Crc32Register(data[..n]), data[n], data[n]);
    }
  }

  lemma ComplementInjective(a: bv32, b: bv32)
    requires a != b
    ensures Xor32(a, 0xFFFF_FFFF) != Xor32(b, 0xFFFF_FFFF)
  {
  }

  /** CRC-32 sees every change of a single octet, in data of any length. */
  lemma Crc32DetectsOctet(data: seq<byte>, i: nat, b: byte)
    requires i < |data| && b != data[i]
    ensures Crc32Bits(data[i := b]) != Crc32Bits(data)
  {
    hide Xor32, Crc32Register;
    RegisterDetectsOctet(data, i, b);
    ComplementInjective(Crc32Register(data[i := b]), Crc32Register(data));
  }

  // ---------------------------------------------------------------------------
  // Check values
  // ---------------------------------------------------------------------------

  /** The digits "1" to "9", the usual test input. */
  const DIGITS: seq<byte> := [0x31, 0x32, 0x33, 0x34, 0x35, 0x36, 0x37, 0x38, 0x39]

  lemma Values16()
    ensures Feed16(0xFFFF, 0x31) == 0xC782
    ensures Feed16(0xC782, 0x32) == 0x3DBA
    ensures Feed16(0x3DBA, 0x33) == 0x5BCE
    ensures Feed16(0x5BCE, 0x34) == 0x5349
    ensures Feed16(0x5349, 0x35) == 0x4560
    ensures Feed16(0x4560, 0x36) == 0x2EF4
    ensures Feed16(0x2EF4, 0x37) == 0x7718
    ensures Feed16(0x7718, 0x38) == 0xA12B
    ensures Feed16(0xA12B, 0x39) == 0x29B1
  {
  }

  lemma Values32()
    ensures Feed32(0xFFFFFFFF, 0x31) == 0x7C231048
    ensures Feed32(0x7C231048, 0x32) == 0xB0ACBB32
    ensures Feed32(0xB0ACBB32, 0x33) == 0x77B79C2D
    ensures Feed32(0x77B79C2D, 0x34) == 0x641C1F5C
    ensures Feed32(0x641C1F5C, 0x35) == 0x340AC5E3
    ensures Feed32(0x340AC5E3, 0x36) == 0xF68D2C9E
    ensures Feed32(0xF68D2C9E, 0x37) == 0xAFFC9660
    ensures Feed32(0xAFFC9660, 0x38) == 0x651F2550
    ensures Feed32(0x651F2550, 0x39) == 0x340BC6D9
  {
  }

  lemma Append16(data: seq<byte>, b: byte)
    ensures Crc16Bits(data + [b]) == Feed16(Crc16Bits(data), b)
  {
    hide Feed16;
    assert (data + [b])[..|data|] == data;
  }

  lemma Append32(data: seq<byte>, b: byte)
    ensures Crc32Register(data + [b]) == Feed32(Crc32Register(data), b)
  {
    hide Feed32;
    assert (data + [b])[..|data|] == data;
  }

  lemma Nothing16()
    ensures Crc16Bits([]) == 0xFFFF
  {
  }

  lemma Nothing32()
    ensures Crc32Register([]) == 0xFFFF_FFFF
  {
  }

  lemma Check16()
    ensures Crc16Bits(DIGITS) == 0x29B1
  {
    Values16();
    Nothing16();
    hide Feed16, Crc16Bits;
    var d: seq<byte> := [];
    Append16(d, 0x31);
    d := d + [0x31];
    Append16(d, 0x32);
    d := d + [0x32];
    Append16(d, 0x33);
    d := d + [0x33];
    Append16(d, 0x34);
    d := d + [0x34];
    Append16(d, 0x35);
    d := d + [0x35];
    Append16(d, 0x36);
    d := d + [0x36];
    Append16(d, 0x37);
    d := d + [0x37];
    Append16(d, 0x38);
    d := d + [0x38];
    Append16(d, 0x39);
    d := d + [0x39];
    assert d == DIGITS;
  }

  lemma Check32()
    ensures Crc32Register(DIGITS) == 0x340BC6D9
  {
    Values32();
    Nothing32();
    hide Feed32, Crc32Register;
    var d: seq<byte> := [];
    Append32(d, 0x31);
    d := d + [0x31];
    Append32(d, 0x32);
    d := d + [0x32];
    Append32(d, 0x33);
    d := d + [0x33];
    Append32(d, 0x34);
    d := d + [0x34];
    Append32(d, 0x35);
    d := d + [0x35];
    Append32(d, 0x36);
    d := d + [0x36];
    Append32(d, 0x37);
    d := d + [0x37];
    Append32(d, 0x38);
    d := d + [0x38];
    Append32(d, 0x39);
    d := d + [0x39];
    assert d == DIGITS;
  }

  /** The published check values of the two checksums. */
  lemma CheckValues()
    ensures Crc16Bits(DIGITS) == 0x29B1 && Crc32Bits(DIGITS) == 0xCBF43926
  {
    Check16();
    Check32();
    hide Crc16Bits, Crc32Register;
  }
}
