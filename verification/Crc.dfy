/** The table-driven CRC routines of the SD card driver, against shift-register division. */
module Crc {
  import opened Gf2

  // ----- Bits of a 16-bit word, from the top -----

  function Shl(x: bv16, k: nat): bv16
    decreases k
  {
    if k == 0 then x else Shl(Up(x), k - 1)
  }

  function Up(x: bv16): bv16 {
    x << 1
  }

  predicate Top(x: bv16) {
    x & 0x8000 != 0
  }

  function Plus(x: bv16, y: bv16): bv16 {
    x ^ y
  }

  /** The k most significant bits of x. */
  function TopBits(x: bv16, k: nat): (b: seq<bool>)
    ensures |b| == k
    decreases k
  {
    if k == 0 then [] else [Top(x)] + TopBits(Up(x), k - 1)
  }

  lemma PlusUp(x: bv16, y: bv16)
    ensures Up(Plus(x, y)) == Plus(Up(x), Up(y))
  {
  }

  lemma PlusTop(x: bv16, y: bv16)
    ensures Top(Plus(x, y)) <==> Top(x) != Top(y)
  {
  }

  lemma {:induction false} BitsPlus(x: bv16, y: bv16, k: nat)
    ensures TopBits(Plus(x, y), k) == Xor(TopBits(x, k), TopBits(y, k))
    decreases k
  {
    hide Up, Top, Plus;
    if k > 0 {
      PlusUp(x, y);
      PlusTop(x, y);
      BitsPlus(Up(x), Up(y), k - 1);
      XorCons(Top(x), Top(y), TopBits(Up(x), k - 1), TopBits(Up(y), k - 1));
    }
  }

  lemma XorCons(a: bool, b: bool, s: seq<bool>, t: seq<bool>)
    requires |s| == |t|
    ensures Xor([a] + s, [b] + t) == [a != b] + Xor(s, t)
  {
  }

  lemma {:induction false} BitsSplit(x: bv16, k: nat, j: nat)
    ensures TopBits(x, k + j) == TopBits(x, k) + TopBits(Shl(x, k), j)
    decreases k
  {
    hide Up, Top;
    if k > 0 {
      BitsSplit(Up(x), k - 1, j);
    }
  }

  lemma {:induction false} BitsOfZero(k: nat)
    ensures TopBits(0, k) == Zeros(k)
  {
    if k > 0 {
      BitsOfZero(k - 1);
    }
  }

  /** Shifting left moves the bits up and brings in a zero, when nothing is pending below them. */
  lemma BitsShift(x: bv16, k: nat)
    requires k > 0 && Shl(x, k) == 0
    ensures TopBits(Up(x), k) == TopBits(x, k)[1..] + [false]
  {
    hide Up, Top;
    BitsSplit(x, k, 1);
    BitsOfZero(1);
    assert Zeros(1) == [false];
    assert TopBits(x, k + 1)[1..] == TopBits(Up(x), k);
  }

  lemma ShlEight(x: bv16)
    ensures Shl(x, 8) == x << 8
  {
    var a := Up(Up(x));
    var b := Up(Up(a));
    var c := Up(Up(b));
    assert Up(Up(c)) == x << 8;
    ShlEightUps(x);
  }

  lemma ShlEightUps(x: bv16)
    ensures Shl(x, 8) == Up(Up(Up(Up(Up(Up(Up(Up(x))))))))
  {
    hide Up;
    assert Shl(x, 8) == Shl(Up(Up(x)), 6);
    assert Shl(Up(Up(x)), 6) == Shl(Up(Up(Up(Up(x)))), 4);
    assert Shl(Up(Up(Up(Up(x)))), 4) == Shl(Up(Up(Up(Up(Up(Up(x)))))), 2);
  }

  lemma {:induction false} ShlSplit(x: bv16, k: nat, j: nat)
    ensures Shl(x, k + j) == Shl(Shl(x, k), j)
    decreases k
  {
    hide Up;
    if k > 0 {
      ShlSplit(Up(x), k - 1, j);
    }
  }

  /** A byte in the upper half of a word. */
  function Raise(d: bv8): bv16 {
    (d as bv16) << 8
  }

  function ByteBits(d: bv8): (b: seq<bool>)
    ensures |b| == 8
  {
    TopBits(Raise(d), 8)
  }

  /** A buffer as it is transmitted: byte by byte, most significant bit first. */
  function MessageBits(m: seq<bv8>): (b: seq<bool>)
    ensures |b| == 8 * |m|
  {
    if m == [] then [] else MessageBits(m[..|m| - 1]) + ByteBits(m[|m| - 1])
  }

  lemma RaisePlus(x: bv8, y: bv8)
    ensures Raise(x ^ y) == Plus(Raise(x), Raise(y))
  {
  }

  lemma RaiseUp(x: bv8)
    ensures Up(Raise(x)) == Raise(x << 1)
  {
  }

  lemma RaiseOut(x: bv8)
    ensures Shl(Raise(x), 8) == 0
  {
    ShlEight(Raise(x));
  }

  lemma ByteXor(x: bv8, y: bv8)
    ensures ByteBits(x ^ y) == Xor(ByteBits(x), ByteBits(y))
  {
    RaisePlus(x, y);
    hide Raise, Plus, Up, Top;
    BitsPlus(Raise(x), Raise(y), 8);
  }

  lemma ByteShift(x: bv8)
    ensures ByteBits(x << 1) == ByteBits(x)[1..] + [false]
  {
    RaiseUp(x);
    RaiseOut(x);
    hide Raise, Up, Top;
    BitsShift(Raise(x), 8);
  }

  // ----- CRC7 -----

  /** The 256-entry table for x^7 + x^3 + 1. */
  function Table7(i: bv8): bv8 {
    if i < 16 then
      (match i
       case 0 => 0x00 case 1 => 0x09 case 2 => 0x12 case 3 => 0x1b
       case 4 => 0x24 case 5 => 0x2d case 6 => 0x36 case 7 => 0x3f
       case 8 => 0x48 case 9 => 0x41 case 10 => 0x5a case 11 => 0x53
       case 12 => 0x6c case 13 => 0x65 case 14 => 0x7e case _ => 0x77)
    else if i < 32 then
      (match i
       case 16 => 0x19 case 17 => 0x10 case 18 => 0x0b case 19 => 0x02
       case 20 => 0x3d case 21 => 0x34 case 22 => 0x2f case 23 => 0x26
       case 24 => 0x51 case 25 => 0x58 case 26 => 0x43 case 27 => 0x4a
       case 28 => 0x75 case 29 => 0x7c case 30 => 0x67 case _ => 0x6e)
    else if i < 48 then
      (match i
       case 32 => 0x32 case 33 => 0x3b case 34 => 0x20 case 35 => 0x29
       case 36 => 0x16 case 37 => 0x1f case 38 => 0x04 case 39 => 0x0d
       case 40 => 0x7a case 41 => 0x73 case 42 => 0x68 case 43 => 0x61
       case 44 => 0x5e case 45 => 0x57 case 46 => 0x4c case _ => 0x45)
    else if i < 64 then
      (match i
       case 48 => 0x2b case 49 => 0x22 case 50 => 0x39 case 51 => 0x30
       case 52 => 0x0f case 53 => 0x06 case 54 => 0x1d case 55 => 0x14
       case 56 => 0x63 case 57 => 0x6a case 58 => 0x71 case 59 => 0x78
       case 60 => 0x47 case 61 => 0x4e case 62 => 0x55 case _ => 0x5c)
    else if i < 80 then
      (match i
       case 64 => 0x64 case 65 => 0x6d case 66 => 0x76 case 67 => 0x7f
       case 68 => 0x40 case 69 => 0x49 case 70 => 0x52 case 71 => 0x5b
       case 72 => 0x2c case 73 => 0x25 case 74 => 0x3e case 75 => 0x37
       case 76 => 0x08 case 77 => 0x01 case 78 => 0x1a case _ => 0x13)
    else if i < 96 then
      (match i
       case 80 => 0x7d case 81 => 0x74 case 82 => 0x6f case 83 => 0x66
       case 84 => 0x59 case 85 => 0x50 case 86 => 0x4b case 87 => 0x42
       case 88 => 0x35 case 89 => 0x3c case 90 => 0x27 case 91 => 0x2e
       case 92 => 0x11 case 93 => 0x18 case 94 => 0x03 case _ => 0x0a)
    else if i < 112 then
      (match i
       case 96 => 0x56 case 97 => 0x5f case 98 => 0x44 case 99 => 0x4d
       case 100 => 0x72 case 101 => 0x7b case 102 => 0x60 case 103 => 0x69
       case 104 => 0x1e case 105 => 0x17 case 106 => 0x0c case 107 => 0x05
       case 108 => 0x3a case 109 => 0x33 case 110 => 0x28 case _ => 0x21)
    else if i < 128 then
      (match i
       case 112 => 0x4f case 113 => 0x46 case 114 => 0x5d case 115 => 0x54
       case 116 => 0x6b case 117 => 0x62 case 118 => 0x79 case 119 => 0x70
       case 120 => 0x07 case 121 => 0x0e case 122 => 0x15 case 123 => 0x1c
       case 124 => 0x23 case 125 => 0x2a case 126 => 0x31 case _ => 0x38)
    else if i < 144 then
      (match i
       case 128 => 0x41 case 129 => 0x48 case 130 => 0x53 case 131 => 0x5a
       case 132 => 0x65 case 133 => 0x6c case 134 => 0x77 case 135 => 0x7e
       case 136 => 0x09 case 137 => 0x00 case 138 => 0x1b case 139 => 0x12
       case 140 => 0x2d case 141 => 0x24 case 142 => 0x3f case _ => 0x36)
    else if i < 160 then
      (match i
       case 144 => 0x58 case 145 => 0x51 case 146 => 0x4a case 147 => 0x43
       case 148 => 0x7c case 149 => 0x75 case 150 => 0x6e case 151 => 0x67
       case 152 => 0x10 case 153 => 0x19 case 154 => 0x02 case 155 => 0x0b
       case 156 => 0x34 case 157 => 0x3d case 158 => 0x26 case _ => 0x2f)
    else if i < 176 then
      (match i
       case 160 => 0x73 case 161 => 0x7a case 162 => 0x61 case 163 => 0x68
       case 164 => 0x57 case 165 => 0x5e case 166 => 0x45 case 167 => 0x4c
       case 168 => 0x3b case 169 => 0x32 case 170 => 0x29 case 171 => 0x20
       case 172 => 0x1f case 173 => 0x16 case 174 => 0x0d case _ => 0x04)
    else if i < 192 then
      (match i
       case 176 => 0x6a case 177 => 0x63 case 178 => 0x78 case 179 => 0x71
       case 180 => 0x4e case 181 => 0x47 case 182 => 0x5c case 183 => 0x55
       case 184 => 0x22 case 185 => 0x2b case 186 => 0x30 case 187 => 0x39
       case 188 => 0x06 case 189 => 0x0f case 190 => 0x14 case _ => 0x1d)
    else if i < 208 then
      (match i
       case 192 => 0x25 case 193 => 0x2c case 194 => 0x37 case 195 => 0x3e
       case 196 => 0x01 case 197 => 0x08 case 198 => 0x13 case 199 => 0x1a
       case 200 => 0x6d case 201 => 0x64 case 202 => 0x7f case 203 => 0x76
       case 204 => 0x49 case 205 => 0x40 case 206 => 0x5b case _ => 0x52)
    else if i < 224 then
      (match i
       case 208 => 0x3c case 209 => 0x35 case 210 => 0x2e case 211 => 0x27
       case 212 => 0x18 case 213 => 0x11 case 214 => 0x0a case 215 => 0x03
       case 216 => 0x74 case 217 => 0x7d case 218 => 0x66 case 219 => 0x6f
       case 220 => 0x50 case 221 => 0x59 case 222 => 0x42 case _ => 0x4b)
    else if i < 240 then
      (match i
       case 224 => 0x17 case 225 => 0x1e case 226 => 0x05 case 227 => 0x0c
       case 228 => 0x33 case 229 => 0x3a case 230 => 0x21 case 231 => 0x28
       case 232 => 0x5f case 233 => 0x56 case 234 => 0x4d case 235 => 0x44
       case 236 => 0x7b case 237 => 0x72 case 238 => 0x69 case _ => 0x60)
    else
      (match i
       case 240 => 0x0e case 241 => 0x07 case 242 => 0x1c case 243 => 0x15
       case 244 => 0x2a case 245 => 0x23 case 246 => 0x38 case 247 => 0x31
       case 248 => 0x46 case 249 => 0x4f case 250 => 0x54 case 251 => 0x5d
       case 252 => 0x62 case 253 => 0x6b case 254 => 0x70 case _ => 0x79)
  }

  /** The table index before any narrowing; C computes it as an int. */
  function Index7(crc: bv8, data: bv8): bv16 {
    ((crc as bv16) << 1) ^ (data as bv16)
  }

  /** The index stays inside the table exactly for a 7-bit register. */
  lemma Index7InRange(crc: bv8, data: bv8)
    ensures Index7(crc, data) < 256 <==> crc < 0x80
  {
  }

  function Crc7Byte(crc: bv8, data: bv8): bv8
    requires crc < 0x80
  {
    Index7InRange(crc, data);
    Table7(Index7(crc, data) as bv8)
  }

  function Crc7Of(crc: bv8, m: seq<bv8>): (c: bv8)
    requires crc < 0x80
    ensures c < 0x80
  {
    if m == [] then crc
    else
      var front := Crc7Of(crc, m[..|m| - 1]);
      Table7Steps(front, m[|m| - 1]);
      Crc7Byte(front, m[|m| - 1])
  }

  /** Seven check bits, most significant first. */
  function Reg7(c: bv8): (r: seq<bool>)
    ensures |r| == 7
  {
    ByteBits(c)[1..]
  }

  /** x^7 + x^3 + 1 without its leading term. */
  const G7: seq<bool> := Reg7(0x09)

  /** The register kept one bit higher, so that its top coefficient is the byte's top bit. */
  function Shift7(s: bv8): bv8 {
    (s << 1) ^ (if s & 0x80 != 0 then 0x12 else 0)
  }

  function Shift7Run(s: bv8, k: nat): bv8
    decreases k
  {
    if k == 0 then s else Shift7Run(Shift7(s), k - 1)
  }

  function Shift7Byte(s: bv8): bv8 {
    Shift7(Shift7(Shift7(Shift7(Shift7(Shift7(Shift7(Shift7(s))))))))
  }

  // Every table entry, by evaluation.

  lemma Table7Entry0(t: bv8)
    requires t < 32
    ensures Table7(t) == Shift7Byte(t) >> 1
  {
    match t
    case 0 => case 1 => case 2 => case 3 => case 4 => case 5 => case 6 => case 7 =>
    case 8 => case 9 => case 10 => case 11 => case 12 => case 13 => case 14 => case 15 =>
    case 16 => case 17 => case 18 => case 19 => case 20 => case 21 => case 22 => case 23 =>
    case 24 => case 25 => case 26 => case 27 => case 28 => case 29 => case 30 => case 31 =>
    case _ =>
  }

  lemma Table7Entry1(t: bv8)
    requires 32 <= t < 64
    ensures Table7(t) == Shift7Byte(t) >> 1
  {
    match t
    case 32 => case 33 => case 34 => case 35 => case 36 => case 37 => case 38 => case 39 =>
    case 40 => case 41 => case 42 => case 43 => case 44 => case 45 => case 46 => case 47 =>
    case 48 => case 49 => case 50 => case 51 => case 52 => case 53 => case 54 => case 55 =>
    case 56 => case 57 => case 58 => case 59 => case 60 => case 61 => case 62 => case 63 =>
    case _ =>
  }

  lemma Table7Entry2(t: bv8)
    requires 64 <= t < 96
    ensures Table7(t) == Shift7Byte(t) >> 1
  {
    match t
    case 64 => case 65 => case 66 => case 67 => case 68 => case 69 => case 70 => case 71 =>
    case 72 => case 73 => case 74 => case 75 => case 76 => case 77 => case 78 => case 79 =>
    case 80 => case 81 => case 82 => case 83 => case 84 => case 85 => case 86 => case 87 =>
    case 88 => case 89 => case 90 => case 91 => case 92 => case 93 => case 94 => case 95 =>
    case _ =>
  }

  lemma Table7Entry3(t: bv8)
    requires 96 <= t < 128
    ensures Table7(t) == Shift7Byte(t) >> 1
  {
    match t
    case 96 => case 97 => case 98 => case 99 => case 100 => case 101 => case 102 => case 103 =>
    case 104 => case 105 => case 106 => case 107 => case 108 => case 109 => case 110 => case 111 =>
    case 112 => case 113 => case 114 => case 115 => case 116 => case 117 => case 118 => case 119 =>
    case 120 => case 121 => case 122 => case 123 => case 124 => case 125 => case 126 => case 127 =>
    case _ =>
  }

  lemma Table7Entry4(t: bv8)
    requires 128 <= t < 160
    ensures Table7(t) == Shift7Byte(t) >> 1
  {
    match t
    case 128 => case 129 => case 130 => case 131 => case 132 => case 133 => case 134 => case 135 =>
    case 136 => case 137 => case 138 => case 139 => case 140 => case 141 => case 142 => case 143 =>
    case 144 => case 145 => case 146 => case 147 => case 148 => case 149 => case 150 => case 151 =>
    case 152 => case 153 => case 154 => case 155 => case 156 => case 157 => case 158 => case 159 =>
    case _ =>
  }

  lemma Table7Entry5(t: bv8)
    requires 160 <= t < 192
    ensures Table7(t) == Shift7Byte(t) >> 1
  {
    match t
    case 160 => case 161 => case 162 => case 163 => case 164 => case 165 => case 166 => case 167 =>
    case 168 => case 169 => case 170 => case 171 => case 172 => case 173 => case 174 => case 175 =>
    case 176 => case 177 => case 178 => case 179 => case 180 => case 181 => case 182 => case 183 =>
    case 184 => case 185 => case 186 => case 187 => case 188 => case 189 => case 190 => case 191 =>
    case _ =>
  }

  lemma Table7Entry6(t: bv8)
    requires 192 <= t < 224
    ensures Table7(t) == Shift7Byte(t) >> 1
  {
    match t
    case 192 => case 193 => case 194 => case 195 => case 196 => case 197 => case 198 => case 199 =>
    case 200 => case 201 => case 202 => case 203 => case 204 => case 205 => case 206 => case 207 =>
    case 208 => case 209 => case 210 => case 211 => case 212 => case 213 => case 214 => case 215 =>
    case 216 => case 217 => case 218 => case 219 => case 220 => case 221 => case 222 => case 223 =>
    case _ =>
  }

  lemma Table7Entry7(t: bv8)
    requires 224 <= t
    ensures Table7(t) == Shift7Byte(t) >> 1
  {
    match t
    case 224 => case 225 => case 226 => case 227 => case 228 => case 229 => case 230 => case 231 =>
    case 232 => case 233 => case 234 => case 235 => case 236 => case 237 => case 238 => case 239 =>
    case 240 => case 241 => case 242 => case 243 => case 244 => case 245 => case 246 => case 247 =>
    case 248 => case 249 => case 250 => case 251 => case 252 => case 253 => case 254 => case 255 =>
    case _ =>
  }

  lemma Table7Entry(t: bv8)
    ensures Table7(t) == Shift7Byte(t) >> 1
  {
    if
    case t < 32 => Table7Entry0(t);
    case 32 <= t < 64 => Table7Entry1(t);
    case 64 <= t < 96 => Table7Entry2(t);
    case 96 <= t < 128 => Table7Entry3(t);
    case 128 <= t < 160 => Table7Entry4(t);
    case 160 <= t < 192 => Table7Entry5(t);
    case 192 <= t < 224 => Table7Entry6(t);
    case 224 <= t => Table7Entry7(t);
  }

  lemma Shift7Bytewise(s: bv8)
    ensures Shift7Run(s, 8) == Shift7Byte(s)
  {
    hide Shift7;
    var u := Shift7(Shift7(s));
    assert Shift7Run(s, 8) == Shift7Run(u, 6);
    var v := Shift7(Shift7(u));
    assert Shift7Run(u, 6) == Shift7Run(v, 4);
    assert Shift7Run(v, 4) == Shift7Run(Shift7(Shift7(v)), 2);
  }

  lemma G7Raised()
    ensures G7 + [false] == ByteBits(0x12) && G7[6]
  {
    ByteShift(0x09);
    BitsSplit(Raise(0x09), 7, 1);
    assert Shl(Raise(0x09), 2) == 0x2400;
    assert Shl(0x2400, 2) == 0x9000;
    assert Shl(0x9000, 3) == 0x8000;
    ShlSplit(Raise(0x09), 2, 5);
    ShlSplit(0x2400, 2, 3);
  }

  /** The generator is x^7 + x^3 + 1. */
  lemma Generator7()
    ensures Generator(G7) == {0, 3, 7}
  {
    G7Raised();
  }

  lemma TopOfByte(s: bv8)
    ensures ByteBits(s)[0] <==> s & 0x80 != 0
  {
    assert Top(Raise(s)) <==> s & 0x80 != 0;
  }

  lemma Shift7IsStep(s: bv8)
    ensures ByteBits(Shift7(s)) == Step(ByteBits(s), false, G7 + [false])
  {
    assert (s << 1) ^ 0 == s << 1;
    hide ByteBits;
    G7Raised();
    TopOfByte(s);
    ByteShift(s);
    ByteXor(s << 1, 0x12);
  }

  lemma {:induction false} Shift7RunBits(s: bv8, k: nat)
    ensures ByteBits(Shift7Run(s, k)) == Run(ByteBits(s), Zeros(k), G7 + [false])
    decreases k
  {
    hide Shift7;
    if k > 0 {
      Shift7IsStep(s);
      assert Zeros(k)[1..] == Zeros(k - 1);
      Shift7RunBits(Shift7(s), k - 1);
    }
  }

  lemma Unshift(s: bv8)
    ensures (Shift7(s) >> 1) << 1 == Shift7(s) && Shift7(s) >> 1 < 0x80
  {
  }

  lemma Reg7OfShifted(s: bv8)
    ensures Reg7(Shift7(s) >> 1) == ByteBits(Shift7(s))[..7] && Shift7(s) >> 1 < 0x80
  {
    Unshift(s);
    hide Shift7;
    ByteShift(Shift7(s) >> 1);
  }

  lemma Shift7ByteIsRemainder(t: bv8)
    ensures Reg7(Shift7Byte(t) >> 1) == Remainder(ByteBits(t), G7) && Shift7Byte(t) >> 1 < 0x80
  {
    hide Shift7;
    Shift7Bytewise(t);
    Shift7RunBits(t, 8);
    AlignedRun(ByteBits(t), G7);
    Reg7OfShifted(Shift7(Shift7(Shift7(Shift7(Shift7(Shift7(Shift7(t))))))));
  }

  /** Entry t is the remainder of t as an 8-bit message. */
  lemma Table7IsRemainder(t: bv8)
    ensures Reg7(Table7(t)) == Remainder(ByteBits(t), G7) && Table7(t) < 0x80
  {
    hide Table7, Shift7Byte;
    Table7Entry(t);
    Shift7ByteIsRemainder(t);
  }

  lemma Index7Narrow(crc: bv8, data: bv8)
    requires crc < 0x80
    ensures Index7(crc, data) < 256 && Index7(crc, data) as bv8 == (crc << 1) ^ data
  {
  }

  /** One table step is eight register steps. */
  lemma Table7Steps(crc: bv8, data: bv8)
    requires crc < 0x80
    ensures Crc7Byte(crc, data) < 0x80
    ensures Reg7(Crc7Byte(crc, data)) == FeedRun(Reg7(crc), ByteBits(data), G7)
  {
    hide Table7, Index7, ByteBits;
    Index7Narrow(crc, data);
    ByteXor(crc << 1, data);
    ByteShift(crc);
    Table7IsRemainder((crc << 1) ^ data);
    FeedManyBits(Reg7(crc), ByteBits(data), G7);
    assert Zeros(1) == [false];
  }

  lemma {:induction false} Crc7IsFeed(crc: bv8, m: seq<bv8>)
    requires crc < 0x80
    ensures Reg7(Crc7Of(crc, m)) == FeedRun(Reg7(crc), MessageBits(m), G7)
    decreases |m|
  {
    if m != [] {
      var front, last := m[..|m| - 1], m[|m| - 1];
      Crc7IsFeed(crc, front);
      Table7Steps(Crc7Of(crc, front), last);
      FeedAppend(Reg7(crc), MessageBits(front), ByteBits(last), G7);
    }
  }

  /** From an empty register the table computes the remainder of the message. */
  lemma Crc7IsRemainder(m: seq<bv8>)
    ensures Reg7(Crc7Of(0, m)) == Remainder(MessageBits(m), G7)
  {
    Crc7IsFeed(0, m);
    BitsOfZero(8);
    assert Raise(0) == 0;
    assert Reg7(0) == Zeros(7);
    FeedIsRemainder(MessageBits(m), G7);
  }

  /** The table loop computes the check bits of the message, for every message. */
  method Crc7(crc: bv8, buffer: seq<bv8>) returns (r: bv8)
    requires crc < 0x80
    ensures r == Crc7Of(crc, buffer) < 0x80
    ensures Reg7(r) == FeedRun(Reg7(crc), MessageBits(buffer), G7)
    ensures crc == 0 ==> Reg7(r) == Remainder(MessageBits(buffer), G7)
  {
    r := crc;
    var i := 0;
    while i < |buffer|
      invariant 0 <= i <= |buffer|
      invariant r == Crc7Of(crc, buffer[..i])
    {
      assert buffer[..i + 1][..i] == buffer[..i];
      r := Crc7Byte(r, buffer[i]);
      i := i + 1;
    }
    assert buffer[..i] == buffer;
    Crc7IsFeed(crc, buffer);
    Crc7IsRemainder(buffer);
  }

  /** A receiver's recomputation disagrees after any burst of at most 7 bits in message and check bits. */
  lemma Crc7DetectsBurst(m: seq<bv8>, m': seq<bv8>, c': bv8)
    requires |m| == |m'|
    requires Burst(Xor(MessageBits(m) + Reg7(Crc7Of(0, m)), MessageBits(m') + Reg7(c')), 7)
    ensures c' != Crc7Of(0, m')
  {
    Crc7IsRemainder(m);
    Crc7IsRemainder(m');
    G7Raised();
    CheckDetectsBurst(MessageBits(m), MessageBits(m'), Reg7(c'), G7);
  }

  /** The check bits are the remainder of dividing the message, times x^7, by x^7 + x^3 + 1; nothing else is. */
  lemma Crc7Divides(m: seq<bv8>, q: seq<bool>, r: seq<bool>)
    requires |q| == |MessageBits(m)| + 7 && |r| == 7
    ensures var bits := MessageBits(m) + Zeros(7);
            && Poly(bits) == Add(Product(Quotient(bits, G7), {0, 3, 7}), Poly(Reg7(Crc7Of(0, m))))
            && (Poly(bits) == Add(Product(q, {0, 3, 7}), Poly(r)) ==> r == Reg7(Crc7Of(0, m)))
  {
    var bits := MessageBits(m) + Zeros(7);
    Generator7();
    Crc7IsRemainder(m);
    DivisionIdentity(bits, G7);
    if Poly(bits) == Add(Product(q, Generator(G7)), Poly(r)) {
      RemainderUnique(bits, q, r, G7);
    }
  }

  // ----- CRC16 -----

  /** The 256-entry table for x^16 + x^12 + x^5 + 1. */
  function Table16(i: bv8): bv16 {
    if i < 16 then
      (match i
       case 0 => 0x0000 case 1 => 0x1021 case 2 => 0x2042 case 3 => 0x3063
       case 4 => 0x4084 case 5 => 0x50a5 case 6 => 0x60c6 case 7 => 0x70e7
       case 8 => 0x8108 case 9 => 0x9129 case 10 => 0xa14a case 11 => 0xb16b
       case 12 => 0xc18c case 13 => 0xd1ad case 14 => 0xe1ce case _ => 0xf1ef)
    else if i < 32 then
      (match i
       case 16 => 0x1231 case 17 => 0x0210 case 18 => 0x3273 case 19 => 0x2252
       case 20 => 0x52b5 case 21 => 0x4294 case 22 => 0x72f7 case 23 => 0x62d6
       case 24 => 0x9339 case 25 => 0x8318 case 26 => 0xb37b case 27 => 0xa35a
       case 28 => 0xd3bd case 29 => 0xc39c case 30 => 0xf3ff case _ => 0xe3de)
    else if i < 48 then
      (match i
       case 32 => 0x2462 case 33 => 0x3443 case 34 => 0x0420 case 35 => 0x1401
       case 36 => 0x64e6 case 37 => 0x74c7 case 38 => 0x44a4 case 39 => 0x5485
       case 40 => 0xa56a case 41 => 0xb54b case 42 => 0x8528 case 43 => 0x9509
       case 44 => 0xe5ee case 45 => 0xf5cf case 46 => 0xc5ac case _ => 0xd58d)
    else if i < 64 then
      (match i
       case 48 => 0x3653 case 49 => 0x2672 case 50 => 0x1611 case 51 => 0x0630
       case 52 => 0x76d7 case 53 => 0x66f6 case 54 => 0x5695 case 55 => 0x46b4
       case 56 => 0xb75b case 57 => 0xa77a case 58 => 0x9719 case 59 => 0x8738
       case 60 => 0xf7df case 61 => 0xe7fe case 62 => 0xd79d case _ => 0xc7bc)
    else if i < 80 then
      (match i
       case 64 => 0x48c4 case 65 => 0x58e5 case 66 => 0x6886 case 67 => 0x78a7
       case 68 => 0x0840 case 69 => 0x1861 case 70 => 0x2802 case 71 => 0x3823
       case 72 => 0xc9cc case 73 => 0xd9ed case 74 => 0xe98e case 75 => 0xf9af
       case 76 => 0x8948 case 77 => 0x9969 case 78 => 0xa90a case _ => 0xb92b)
    else if i < 96 then
      (match i
       case 80 => 0x5af5 case 81 => 0x4ad4 case 82 => 0x7ab7 case 83 => 0x6a96
       case 84 => 0x1a71 case 85 => 0x0a50 case 86 => 0x3a33 case 87 => 0x2a12
       case 88 => 0xdbfd case 89 => 0xcbdc case 90 => 0xfbbf case 91 => 0xeb9e
       case 92 => 0x9b79 case 93 => 0x8b58 case 94 => 0xbb3b case _ => 0xab1a)
    else if i < 112 then
      (match i
       case 96 => 0x6ca6 case 97 => 0x7c87 case 98 => 0x4ce4 case 99 => 0x5cc5
       case 100 => 0x2c22 case 101 => 0x3c03 case 102 => 0x0c60 case 103 => 0x1c41
       case 104 => 0xedae case 105 => 0xfd8f case 106 => 0xcdec case 107 => 0xddcd
       case 108 => 0xad2a case 109 => 0xbd0b case 110 => 0x8d68 case _ => 0x9d49)
    else if i < 128 then
      (match i
       case 112 => 0x7e97 case 113 => 0x6eb6 case 114 => 0x5ed5 case 115 => 0x4ef4
       case 116 => 0x3e13 case 117 => 0x2e32 case 118 => 0x1e51 case 119 => 0x0e70
       case 120 => 0xff9f case 121 => 0xefbe case 122 => 0xdfdd case 123 => 0xcffc
       case 124 => 0xbf1b case 125 => 0xaf3a case 126 => 0x9f59 case _ => 0x8f78)
    else if i < 144 then
      (match i
       case 128 => 0x9188 case 129 => 0x81a9 case 130 => 0xb1ca case 131 => 0xa1eb
       case 132 => 0xd10c case 133 => 0xc12d case 134 => 0xf14e case 135 => 0xe16f
       case 136 => 0x1080 case 137 => 0x00a1 case 138 => 0x30c2 case 139 => 0x20e3
       case 140 => 0x5004 case 141 => 0x4025 case 142 => 0x7046 case _ => 0x6067)
    else if i < 160 then
      (match i
       case 144 => 0x83b9 case 145 => 0x9398 case 146 => 0xa3fb case 147 => 0xb3da
       case 148 => 0xc33d case 149 => 0xd31c case 150 => 0xe37f case 151 => 0xf35e
       case 152 => 0x02b1 case 153 => 0x1290 case 154 => 0x22f3 case 155 => 0x32d2
       case 156 => 0x4235 case 157 => 0x5214 case 158 => 0x6277 case _ => 0x7256)
    else if i < 176 then
      (match i
       case 160 => 0xb5ea case 161 => 0xa5cb case 162 => 0x95a8 case 163 => 0x8589
       case 164 => 0xf56e case 165 => 0xe54f case 166 => 0xd52c case 167 => 0xc50d
       case 168 => 0x34e2 case 169 => 0x24c3 case 170 => 0x14a0 case 171 => 0x0481
       case 172 => 0x7466 case 173 => 0x6447 case 174 => 0x5424 case _ => 0x4405)
    else if i < 192 then
      (match i
       case 176 => 0xa7db case 177 => 0xb7fa case 178 => 0x8799 case 179 => 0x97b8
       case 180 => 0xe75f case 181 => 0xf77e case 182 => 0xc71d case 183 => 0xd73c
       case 184 => 0x26d3 case 185 => 0x36f2 case 186 => 0x0691 case 187 => 0x16b0
       case 188 => 0x6657 case 189 => 0x7676 case 190 => 0x4615 case _ => 0x5634)
    else if i < 208 then
      (match i
       case 192 => 0xd94c case 193 => 0xc96d case 194 => 0xf90e case 195 => 0xe92f
       case 196 => 0x99c8 case 197 => 0x89e9 case 198 => 0xb98a case 199 => 0xa9ab
       case 200 => 0x5844 case 201 => 0x4865 case 202 => 0x7806 case 203 => 0x6827
       case 204 => 0x18c0 case 205 => 0x08e1 case 206 => 0x3882 case _ => 0x28a3)
    else if i < 224 then
      (match i
       case 208 => 0xcb7d case 209 => 0xdb5c case 210 => 0xeb3f case 211 => 0xfb1e
       case 212 => 0x8bf9 case 213 => 0x9bd8 case 214 => 0xabbb case 215 => 0xbb9a
       case 216 => 0x4a75 case 217 => 0x5a54 case 218 => 0x6a37 case 219 => 0x7a16
       case 220 => 0x0af1 case 221 => 0x1ad0 case 222 => 0x2ab3 case _ => 0x3a92)
    else if i < 240 then
      (match i
       case 224 => 0xfd2e case 225 => 0xed0f case 226 => 0xdd6c case 227 => 0xcd4d
       case 228 => 0xbdaa case 229 => 0xad8b case 230 => 0x9de8 case 231 => 0x8dc9
       case 232 => 0x7c26 case 233 => 0x6c07 case 234 => 0x5c64 case 235 => 0x4c45
       case 236 => 0x3ca2 case 237 => 0x2c83 case 238 => 0x1ce0 case _ => 0x0cc1)
    else
      (match i
       case 240 => 0xef1f case 241 => 0xff3e case 242 => 0xcf5d case 243 => 0xdf7c
       case 244 => 0xaf9b case 245 => 0xbfba case 246 => 0x8fd9 case 247 => 0x9ff8
       case 248 => 0x6e17 case 249 => 0x7e36 case 250 => 0x4e55 case 251 => 0x5e74
       case 252 => 0x2e93 case 253 => 0x3eb2 case 254 => 0x0ed1 case _ => 0x1ef0)
  }

  function Index16(crc: bv16, data: bv8): bv8 {
    ((crc >> 8) as bv8) ^ data
  }

  function Crc16Byte(crc: bv16, data: bv8): bv16 {
    (crc << 8) ^ Table16(Index16(crc, data))
  }

  function Crc16Of(m: seq<bv8>): bv16 {
    if m == [] then 0 else Crc16Byte(Crc16Of(m[..|m| - 1]), m[|m| - 1])
  }

  /** Sixteen check bits, most significant first. */
  function Reg16(c: bv16): (r: seq<bool>)
    ensures |r| == 16
  {
    TopBits(c, 16)
  }

  /** x^16 + x^12 + x^5 + 1 without its leading term. */
  const G16: seq<bool> := Reg16(0x1021)

  function Shift16(s: bv16): bv16 {
    (s << 1) ^ (if s & 0x8000 != 0 then 0x1021 else 0)
  }

  function Shift16Run(s: bv16, k: nat): bv16
    decreases k
  {
    if k == 0 then s else Shift16Run(Shift16(s), k - 1)
  }

  function Shift16Byte(s: bv16): bv16 {
    Shift16(Shift16(Shift16(Shift16(Shift16(Shift16(Shift16(Shift16(s))))))))
  }

  // Every table entry, by evaluation.

  lemma Table16Entry0(t: bv8)
    requires t < 32
    ensures Table16(t) == Shift16Byte(Raise(t))
  {
    match t
    case 0 => case 1 => case 2 => case 3 => case 4 => case 5 => case 6 => case 7 =>
    case 8 => case 9 => case 10 => case 11 => case 12 => case 13 => case 14 => case 15 =>
    case 16 => case 17 => case 18 => case 19 => case 20 => case 21 => case 22 => case 23 =>
    case 24 => case 25 => case 26 => case 27 => case 28 => case 29 => case 30 => case 31 =>
    case _ =>
  }

  lemma Table16Entry1(t: bv8)
    requires 32 <= t < 64
    ensures Table16(t) == Shift16Byte(Raise(t))
  {
    match t
    case 32 => case 33 => case 34 => case 35 => case 36 => case 37 => case 38 => case 39 =>
    case 40 => case 41 => case 42 => case 43 => case 44 => case 45 => case 46 => case 47 =>
    case 48 => case 49 => case 50 => case 51 => case 52 => case 53 => case 54 => case 55 =>
    case 56 => case 57 => case 58 => case 59 => case 60 => case 61 => case 62 => case 63 =>
    case _ =>
  }

  lemma Table16Entry2(t: bv8)
    requires 64 <= t < 96
    ensures Table16(t) == Shift16Byte(Raise(t))
  {
    match t
    case 64 => case 65 => case 66 => case 67 => case 68 => case 69 => case 70 => case 71 =>
    case 72 => case 73 => case 74 => case 75 => case 76 => case 77 => case 78 => case 79 =>
    case 80 => case 81 => case 82 => case 83 => case 84 => case 85 => case 86 => case 87 =>
    case 88 => case 89 => case 90 => case 91 => case 92 => case 93 => case 94 => case 95 =>
    case _ =>
  }

  lemma Table16Entry3(t: bv8)
    requires 96 <= t < 128
    ensures Table16(t) == Shift16Byte(Raise(t))
  {
    match t
    case 96 => case 97 => case 98 => case 99 => case 100 => case 101 => case 102 => case 103 =>
    case 104 => case 105 => case 106 => case 107 => case 108 => case 109 => case 110 => case 111 =>
    case 112 => case 113 => case 114 => case 115 => case 116 => case 117 => case 118 => case 119 =>
    case 120 => case 121 => case 122 => case 123 => case 124 => case 125 => case 126 => case 127 =>
    case _ =>
  }

  lemma Table16Entry4(t: bv8)
    requires 128 <= t < 160
    ensures Table16(t) == Shift16Byte(Raise(t))
  {
    match t
    case 128 => case 129 => case 130 => case 131 => case 132 => case 133 => case 134 => case 135 =>
    case 136 => case 137 => case 138 => case 139 => case 140 => case 141 => case 142 => case 143 =>
    case 144 => case 145 => case 146 => case 147 => case 148 => case 149 => case 150 => case 151 =>
    case 152 => case 153 => case 154 => case 155 => case 156 => case 157 => case 158 => case 159 =>
    case _ =>
  }

  lemma Table16Entry5(t: bv8)
    requires 160 <= t < 192
    ensures Table16(t) == Shift16Byte(Raise(t))
  {
    match t
    case 160 => case 161 => case 162 => case 163 => case 164 => case 165 => case 166 => case 167 =>
    case 168 => case 169 => case 170 => case 171 => case 172 => case 173 => case 174 => case 175 =>
    case 176 => case 177 => case 178 => case 179 => case 180 => case 181 => case 182 => case 183 =>
    case 184 => case 185 => case 186 => case 187 => case 188 => case 189 => case 190 => case 191 =>
    case _ =>
  }

  lemma Table16Entry6(t: bv8)
    requires 192 <= t < 224
    ensures Table16(t) == Shift16Byte(Raise(t))
  {
    match t
    case 192 => case 193 => case 194 => case 195 => case 196 => case 197 => case 198 => case 199 =>
    case 200 => case 201 => case 202 => case 203 => case 204 => case 205 => case 206 => case 207 =>
    case 208 => case 209 => case 210 => case 211 => case 212 => case 213 => case 214 => case 215 =>
    case 216 => case 217 => case 218 => case 219 => case 220 => case 221 => case 222 => case 223 =>
    case _ =>
  }

  lemma Table16Entry7(t: bv8)
    requires 224 <= t
    ensures Table16(t) == Shift16Byte(Raise(t))
  {
    match t
    case 224 => case 225 => case 226 => case 227 => case 228 => case 229 => case 230 => case 231 =>
    case 232 => case 233 => case 234 => case 235 => case 236 => case 237 => case 238 => case 239 =>
    case 240 => case 241 => case 242 => case 243 => case 244 => case 245 => case 246 => case 247 =>
    case 248 => case 249 => case 250 => case 251 => case 252 => case 253 => case 254 => case 255 =>
    case _ =>
  }

  lemma Table16Entry(t: bv8)
    ensures Table16(t) == Shift16Byte(Raise(t))
  {
    if
    case t < 32 => Table16Entry0(t);
    case 32 <= t < 64 => Table16Entry1(t);
    case 64 <= t < 96 => Table16Entry2(t);
    case 96 <= t < 128 => Table16Entry3(t);
    case 128 <= t < 160 => Table16Entry4(t);
    case 160 <= t < 192 => Table16Entry5(t);
    case 192 <= t < 224 => Table16Entry6(t);
    case 224 <= t => Table16Entry7(t);
  }

  lemma Shift16Bytewise(s: bv16)
    ensures Shift16Run(s, 8) == Shift16Byte(s)
  {
    hide Shift16;
    var u := Shift16(Shift16(s));
    assert Shift16Run(s, 8) == Shift16Run(u, 6);
    var v := Shift16(Shift16(u));
    assert Shift16Run(u, 6) == Shift16Run(v, 4);
    assert Shift16Run(v, 4) == Shift16Run(Shift16(Shift16(v)), 2);
  }

  lemma Shift16Form(x: bv16)
    ensures Shift16(x) == if Top(x) then Plus(Up(x), 0x1021) else Up(x)
  {
    assert (x << 1) ^ 0 == x << 1;
  }

  lemma PlusComm(x: bv16, y: bv16)
    ensures Plus(x, y) == Plus(y, x)
  {
  }

  lemma PlusAssoc(x: bv16, y: bv16, z: bv16)
    ensures Plus(Plus(x, y), z) == Plus(x, Plus(y, z))
  {
  }

  lemma PlusSelf(x: bv16)
    ensures Plus(x, x) == 0 && Plus(x, 0) == x
  {
  }

  lemma PlusSwap(x: bv16, y: bv16, c: bv16)
    ensures Plus(Plus(x, c), y) == Plus(Plus(x, y), c) == Plus(x, Plus(y, c))
    ensures Plus(Plus(x, c), Plus(y, c)) == Plus(x, y)
  {
    hide Plus;
    PlusAssoc(x, c, y);
    PlusComm(c, y);
    PlusAssoc(x, y, c);
    PlusAssoc(Plus(x, c), y, c);
    PlusAssoc(Plus(x, y), c, c);
    PlusSelf(c);
    PlusSelf(Plus(x, y));
  }

  lemma Shift16Plus(x: bv16, y: bv16)
    ensures Shift16(Plus(x, y)) == Plus(Shift16(x), Shift16(y))
  {
    hide Plus, Up, Top, Shift16;
    PlusUp(x, y);
    PlusTop(x, y);
    Shift16Form(x);
    Shift16Form(y);
    Shift16Form(Plus(x, y));
    PlusSwap(Up(x), Up(y), 0x1021);
  }

  lemma {:induction false} Shift16RunPlus(x: bv16, y: bv16, k: nat)
    ensures Shift16Run(Plus(x, y), k) == Plus(Shift16Run(x, k), Shift16Run(y, k))
    decreases k
  {
    hide Plus, Shift16;
    if k > 0 {
      Shift16Plus(x, y);
      Shift16RunPlus(Shift16(x), Shift16(y), k - 1);
    }
  }

  /** While nothing reaches the top, the register only shifts. */
  lemma {:induction false} QuietShifts(y: bv16, k: nat)
    requires TopBits(y, k) == Zeros(k)
    ensures Shift16Run(y, k) == Shl(y, k)
    decreases k
  {
    hide Up, Top, Shift16;
    if k > 0 {
      assert !Zeros(k)[0] && TopBits(y, k)[0] == Top(y);
      Shift16Form(y);
      assert TopBits(Up(y), k - 1) == TopBits(y, k)[1..] == Zeros(k)[1..] == Zeros(k - 1);
      QuietShifts(Up(y), k - 1);
    }
  }

  lemma {:induction false} SmallIsQuiet(y: bv16, k: nat, m: bv16)
    requires y & m == y && TopBits(m, k) == Zeros(k)
    ensures TopBits(y, k) == Zeros(k)
    decreases k
  {
    if k > 0 {
      assert !Zeros(k)[0] && TopBits(m, k)[0] == Top(m);
      Submask(y, m);
      hide Up, Top;
      assert TopBits(Up(m), k - 1) == TopBits(m, k)[1..] == Zeros(k)[1..] == Zeros(k - 1);
      SmallIsQuiet(Up(y), k - 1, Up(m));
      assert Zeros(k) == [false] + Zeros(k - 1);
    }
  }

  lemma Submask(y: bv16, m: bv16)
    requires y & m == y
    ensures Up(y) & Up(m) == Up(y)
    ensures Top(y) ==> Top(m)
  {
  }

  lemma LowMaskQuiet()
    ensures TopBits(0xff, 8) == Zeros(8)
  {
    BitsSplit(0xff, 4, 4);
    assert Shl(0xff, 4) == 0xff0 by {
      ShlSplit(0xff, 2, 2);
      assert Shl(0xff, 2) == 0x3fc;
    }
    assert TopBits(0xff, 4) == Zeros(4) by {
      BitsSplit(0xff, 2, 2);
      assert Shl(0xff, 2) == 0x3fc;
      assert TopBits(0xff, 2) == [false, false];
      assert TopBits(0x3fc, 2) == [false, false];
    }
    assert TopBits(0xff0, 4) == Zeros(4) by {
      BitsSplit(0xff0, 2, 2);
      assert Shl(0xff0, 2) == 0x3fc0;
      assert TopBits(0xff0, 2) == [false, false];
      assert TopBits(0x3fc0, 2) == [false, false];
    }
  }

  lemma LowByteMovesUp(y: bv16)
    requires y & 0xff == y
    ensures Shift16Run(y, 8) == y << 8
  {
    LowMaskQuiet();
    SmallIsQuiet(y, 8, 0xff);
    QuietShifts(y, 8);
    ShlEight(y);
  }

  lemma LowHalf(crc: bv16)
    ensures crc == Plus(Raise(Index16(crc, 0)), crc & 0xff)
    ensures (crc & 0xff) << 8 == crc << 8 && (crc & 0xff) & 0xff == crc & 0xff
  {
  }

  lemma IndexPlus(crc: bv16, data: bv8)
    ensures Index16(crc, data) == Index16(crc, 0) ^ data
  {
  }

  lemma SplitWord(crc: bv16, data: bv8)
    ensures Plus(crc, Raise(data)) == Plus(Raise(Index16(crc, data)), crc & 0xff)
  {
    LowHalf(crc);
    IndexPlus(crc, data);
    RaisePlus(Index16(crc, 0), data);
    hide Plus, Raise, Index16;
    PlusSwap(Raise(Index16(crc, 0)), Raise(data), crc & 0xff);
  }

  lemma Crc16ByteForm(crc: bv16, data: bv8)
    ensures Crc16Byte(crc, data) == Plus(crc << 8, Table16(Index16(crc, data)))
  {
    hide Table16, Index16;
  }

  /** The table step is eight steps of the register with the data added to its upper byte. */
  lemma Table16IsRun(crc: bv16, data: bv8)
    ensures Crc16Byte(crc, data) == Shift16Run(Plus(crc, Raise(data)), 8)
  {
    LowHalf(crc);
    hide Crc16Byte, Plus, Index16, Table16, Raise, Shift16Byte, Shift16, Shift16Run;
    var t := Index16(crc, data);
    Crc16ByteForm(crc, data);
    Table16Entry(t);
    Shift16Bytewise(Raise(t));
    SplitWord(crc, data);
    Shift16RunPlus(Raise(t), crc & 0xff, 8);
    LowByteMovesUp(crc & 0xff);
    PlusComm(Table16(t), crc << 8);
  }

  lemma ShlSixteen(x: bv16)
    ensures Shl(x, 16) == 0
  {
    ShlSplit(x, 8, 8);
    ShlEight(x);
    ShlEight(x << 8);
  }

  lemma Nibble(x: bv16)
    ensures TopBits(x, 4) == [Top(x), Top(Up(x)), Top(Up(Up(x))), Top(Up(Up(Up(x))))]
    ensures Shl(x, 4) == Up(Up(Up(Up(x))))
  {
    hide Up, Top;
    assert TopBits(Up(Up(Up(x))), 1) == [Top(Up(Up(Up(x))))];
  }

  lemma G16Bits()
    ensures G16 ==
          [false, false, false, true, false, false, false, false, false, false, true, false, false, false, false, true]
  {
    BitsSplit(0x1021, 4, 12);
    BitsSplit(0x0210, 4, 8);
    BitsSplit(0x2100, 4, 4);
    Nibble(0x1021);
    Nibble(0x0210);
    Nibble(0x2100);
    Nibble(0x1000);
    hide TopBits, Shl;
  }

  /** The generator is x^16 + x^12 + x^5 + 1. */
  lemma Generator16()
    ensures Generator(G16) == {0, 5, 12, 16}
  {
    G16Bits();
    hide TopBits, Shl;
  }

  lemma G16Last()
    ensures G16[15]
  {
    G16Bits();
  }

  lemma Shift16IsStep(s: bv16)
    ensures Reg16(Shift16(s)) == Step(Reg16(s), false, G16)
  {
    hide Up, Top, Plus, Shift16;
    Shift16Form(s);
    ShlSixteen(s);
    BitsShift(s, 16);
    BitsPlus(Up(s), 0x1021, 16);
    assert Reg16(s)[0] == Top(s);
  }

  lemma {:induction false} Shift16RunBits(s: bv16, k: nat)
    ensures Reg16(Shift16Run(s, k)) == Run(Reg16(s), Zeros(k), G16)
    decreases k
  {
    hide Shift16, Reg16;
    if k > 0 {
      Shift16IsStep(s);
      assert Zeros(k)[1..] == Zeros(k - 1);
      Shift16RunBits(Shift16(s), k - 1);
    }
  }

  lemma RaisedBits(d: bv8)
    ensures Reg16(Raise(d)) == ByteBits(d) + Zeros(8)
  {
    hide Raise, Top, Up;
    BitsSplit(Raise(d), 8, 8);
    RaiseOut(d);
    BitsOfZero(8);
  }

  lemma FeedIsShift(crc: bv16, data: bv8)
    ensures Reg16(Shift16Run(Plus(crc, Raise(data)), 8)) == FeedRun(Reg16(crc), ByteBits(data), G16)
  {
    hide Raise, Plus, ByteBits, Shift16Run, TopBits;
    Shift16RunBits(Plus(crc, Raise(data)), 8);
    BitsPlus(crc, Raise(data), 16);
    RaisedBits(data);
    FeedFewBits(Reg16(crc), ByteBits(data), G16);
  }

  /** One table step is eight register steps. */
  lemma Table16Steps(crc: bv16, data: bv8)
    ensures Reg16(Crc16Byte(crc, data)) == FeedRun(Reg16(crc), ByteBits(data), G16)
  {
    hide Crc16Byte, Raise, Plus, ByteBits;
    Table16IsRun(crc, data);
    FeedIsShift(crc, data);
  }

  lemma {:induction false} Crc16IsFeed(m: seq<bv8>)
    ensures Reg16(Crc16Of(m)) == FeedRun(Zeros(16), MessageBits(m), G16)
    decreases |m|
  {
    if m == [] {
      BitsOfZero(16);
    } else {
      var front, last := m[..|m| - 1], m[|m| - 1];
      Crc16IsFeed(front);
      Table16Steps(Crc16Of(front), last);
      FeedAppend(Zeros(16), MessageBits(front), ByteBits(last), G16);
    }
  }

  lemma Crc16IsRemainder(m: seq<bv8>)
    ensures Reg16(Crc16Of(m)) == Remainder(MessageBits(m), G16)
  {
    Crc16IsFeed(m);
    FeedIsRemainder(MessageBits(m), G16);
  }

  method Crc16(buffer: seq<bv8>) returns (crc: bv16)
    ensures crc == Crc16Of(buffer)
    ensures Reg16(crc) == Remainder(MessageBits(buffer), G16)
  {
    crc := 0;
    for counter := 0 to |buffer|
      invariant crc == Crc16Of(buffer[..counter])
    {
      assert buffer[..counter + 1][..counter] == buffer[..counter];
      crc := Crc16Byte(crc, buffer[counter]);
    }
    assert buffer[..|buffer|] == buffer;
    Crc16IsRemainder(buffer);
  }

  /** A receiver's recomputation disagrees after any burst of at most 16 bits in message and check bits. */
  lemma Crc16DetectsBurst(m: seq<bv8>, m': seq<bv8>, c': bv16)
    requires |m| == |m'|
    requires Burst(Xor(MessageBits(m) + Reg16(Crc16Of(m)), MessageBits(m') + Reg16(c')), 16)
    ensures c' != Crc16Of(m')
  {
    Crc16IsRemainder(m);
    Crc16IsRemainder(m');
    G16Last();
    CheckDetectsBurst(MessageBits(m), MessageBits(m'), Reg16(c'), G16);
  }

  /**
   The check bits are the remainder of dividing the message, times x^16, by x^16 + x^12 + x^5 + 1; nothing
   else is.
   */
  lemma Crc16Divides(m: seq<bv8>, q: seq<bool>, r: seq<bool>)
    requires |q| == |MessageBits(m)| + 16 && |r| == 16
    ensures var bits := MessageBits(m) + Zeros(16);
            && Poly(bits) == Add(Product(Quotient(bits, G16), {0, 5, 12, 16}), Poly(Reg16(Crc16Of(m))))
            && (Poly(bits) == Add(Product(q, {0, 5, 12, 16}), Poly(r)) ==> r == Reg16(Crc16Of(m)))
  {
    var bits := MessageBits(m) + Zeros(16);
    Generator16();
    Crc16IsRemainder(m);
    DivisionIdentity(bits, G16);
    if Poly(bits) == Add(Product(q, Generator(G16)), Poly(r)) {
      RemainderUnique(bits, q, r, G16);
    }
  }
}
