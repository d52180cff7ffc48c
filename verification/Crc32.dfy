/** The table-driven CRC-32 against the bit-by-bit definition of section 8 of RFC 1952. */
module Crc32 {

  // ----- The bit-by-bit definition: division by the reflected polynomial -----

  function BitStep(x: bv32): bv32 {
    if x & 1 == 1 then (x >> 1) ^ 0xedb88320 else x >> 1
  }

  function NibbleStep(x: bv32): bv32 {
    BitStep(BitStep(BitStep(BitStep(x))))
  }

  function ByteStep(x: bv32): bv32 {
    NibbleStep(NibbleStep(x))
  }

  function Xor(a: bv32, b: bv32): bv32 {
    a ^ b
  }

  /** The register after the bytes of `data`, each added at the low end and shifted out bit by bit. */
  function Divide(x: bv32, data: seq<bv8>): bv32 {
    if data == [] then x else ByteStep(Xor(Divide(x, data[..|data| - 1]), data[|data| - 1] as bv32))
  }

  function Complement(x: bv32): bv32 {
    x ^ 0xffffffff
  }

  /** The CRC-32 of `data`, continuing from `hash`. */
  function Crc(hash: bv32, data: seq<bv8>): bv32 {
    Complement(Divide(Complement(hash), data))
  }

  lemma {:induction false} DivideAppend(x: bv32, a: seq<bv8>, b: seq<bv8>)
    ensures Divide(x, a + b) == Divide(Divide(x, a), b)
    decreases |b|
  {
    hide ByteStep, Xor;
    if b == [] {
      assert a + b == a;
    } else {
      assert (a + b)[..|a + b| - 1] == a + b[..|b| - 1];
      DivideAppend(x, a, b[..|b| - 1]);
    }
  }

  lemma ComplementTwice(x: bv32)
    ensures Complement(Complement(x)) == x
  {
  }

  /** The CRC of a concatenation continues from the CRC of its first part. */
  lemma CrcAppend(hash: bv32, a: seq<bv8>, b: seq<bv8>)
    ensures Crc(hash, a + b) == Crc(Crc(hash, a), b)
  {
    hide Divide, Complement;
    DivideAppend(Complement(hash), a, b);
    ComplementTwice(Divide(Complement(hash), a));
  }

  // ----- The table, in rows of 16 -----

  function Row0(i: bv32): bv32 {
    if i == 0 then 0x00000000 else if i == 1 then 0x77073096 else if i == 2 then 0xee0e612c else if i == 3 then 0x990951ba else
    if i == 4 then 0x076dc419 else if i == 5 then 0x706af48f else if i == 6 then 0xe963a535 else if i == 7 then 0x9e6495a3 else
    if i == 8 then 0x0edb8832 else if i == 9 then 0x79dcb8a4 else if i == 10 then 0xe0d5e91e else if i == 11 then 0x97d2d988 else
    if i == 12 then 0x09b64c2b else if i == 13 then 0x7eb17cbd else if i == 14 then 0xe7b82d07 else
    0x90bf1d91
  }

  function Row1(i: bv32): bv32 {
    if i == 16 then 0x1db71064 else if i == 17 then 0x6ab020f2 else if i == 18 then 0xf3b97148 else if i == 19 then 0x84be41de else
    if i == 20 then 0x1adad47d else if i == 21 then 0x6ddde4eb else if i == 22 then 0xf4d4b551 else if i == 23 then 0x83d385c7 else
    if i == 24 then 0x136c9856 else if i == 25 then 0x646ba8c0 else if i == 26 then 0xfd62f97a else if i == 27 then 0x8a65c9ec else
    if i == 28 then 0x14015c4f else if i == 29 then 0x63066cd9 else if i == 30 then 0xfa0f3d63 else
    0x8d080df5
  }

  function Row2(i: bv32): bv32 {
    if i == 32 then 0x3b6e20c8 else if i == 33 then 0x4c69105e else if i == 34 then 0xd56041e4 else if i == 35 then 0xa2677172 else
    if i == 36 then 0x3c03e4d1 else if i == 37 then 0x4b04d447 else if i == 38 then 0xd20d85fd else if i == 39 then 0xa50ab56b else
    if i == 40 then 0x35b5a8fa else if i == 41 then 0x42b2986c else if i == 42 then 0xdbbbc9d6 else if i == 43 then 0xacbcf940 else
    if i == 44 then 0x32d86ce3 else if i == 45 then 0x45df5c75 else if i == 46 then 0xdcd60dcf else
    0xabd13d59
  }

  function Row3(i: bv32): bv32 {
    if i == 48 then 0x26d930ac else if i == 49 then 0x51de003a else if i == 50 then 0xc8d75180 else if i == 51 then 0xbfd06116 else
    if i == 52 then 0x21b4f4b5 else if i == 53 then 0x56b3c423 else if i == 54 then 0xcfba9599 else if i == 55 then 0xb8bda50f else
    if i == 56 then 0x2802b89e else if i == 57 then 0x5f058808 else if i == 58 then 0xc60cd9b2 else if i == 59 then 0xb10be924 else
    if i == 60 then 0x2f6f7c87 else if i == 61 then 0x58684c11 else if i == 62 then 0xc1611dab else
    0xb6662d3d
  }

  function Row4(i: bv32): bv32 {
    if i == 64 then 0x76dc4190 else if i == 65 then 0x01db7106 else if i == 66 then 0x98d220bc else if i == 67 then 0xefd5102a else
    if i == 68 then 0x71b18589 else if i == 69 then 0x06b6b51f else if i == 70 then 0x9fbfe4a5 else if i == 71 then 0xe8b8d433 else
    if i == 72 then 0x7807c9a2 else if i == 73 then 0x0f00f934 else if i == 74 then 0x9609a88e else if i == 75 then 0xe10e9818 else
    if i == 76 then 0x7f6a0dbb else if i == 77 then 0x086d3d2d else if i == 78 then 0x91646c97 else
    0xe6635c01
  }

  function Row5(i: bv32): bv32 {
    if i == 80 then 0x6b6b51f4 else if i == 81 then 0x1c6c6162 else if i == 82 then 0x856530d8 else if i == 83 then 0xf262004e else
    if i == 84 then 0x6c0695ed else if i == 85 then 0x1b01a57b else if i == 86 then 0x8208f4c1 else if i == 87 then 0xf50fc457 else
    if i == 88 then 0x65b0d9c6 else if i == 89 then 0x12b7e950 else if i == 90 then 0x8bbeb8ea else if i == 91 then 0xfcb9887c else
    if i == 92 then 0x62dd1ddf else if i == 93 then 0x15da2d49 else if i == 94 then 0x8cd37cf3 else
    0xfbd44c65
  }

  function Row6(i: bv32): bv32 {
    if i == 96 then 0x4db26158 else if i == 97 then 0x3ab551ce else if i == 98 then 0xa3bc0074 else if i == 99 then 0xd4bb30e2 else
    if i == 100 then 0x4adfa541 else if i == 101 then 0x3dd895d7 else if i == 102 then 0xa4d1c46d else if i == 103 then 0xd3d6f4fb else
    if i == 104 then 0x4369e96a else if i == 105 then 0x346ed9fc else if i == 106 then 0xad678846 else if i == 107 then 0xda60b8d0 else
    if i == 108 then 0x44042d73 else if i == 109 then 0x33031de5 else if i == 110 then 0xaa0a4c5f else
    0xdd0d7cc9
  }

  function Row7(i: bv32): bv32 {
    if i == 112 then 0x5005713c else if i == 113 then 0x270241aa else if i == 114 then 0xbe0b1010 else if i == 115 then 0xc90c2086 else
    if i == 116 then 0x5768b525 else if i == 117 then 0x206f85b3 else if i == 118 then 0xb966d409 else if i == 119 then 0xce61e49f else
    if i == 120 then 0x5edef90e else if i == 121 then 0x29d9c998 else if i == 122 then 0xb0d09822 else if i == 123 then 0xc7d7a8b4 else
    if i == 124 then 0x59b33d17 else if i == 125 then 0x2eb40d81 else if i == 126 then 0xb7bd5c3b else
    0xc0ba6cad
  }

  function Row8(i: bv32): bv32 {
    if i == 128 then 0xedb88320 else if i == 129 then 0x9abfb3b6 else if i == 130 then 0x03b6e20c else if i == 131 then 0x74b1d29a else
    if i == 132 then 0xead54739 else if i == 133 then 0x9dd277af else if i == 134 then 0x04db2615 else if i == 135 then 0x73dc1683 else
    if i == 136 then 0xe3630b12 else if i == 137 then 0x94643b84 else if i == 138 then 0x0d6d6a3e else if i == 139 then 0x7a6a5aa8 else
    if i == 140 then 0xe40ecf0b else if i == 141 then 0x9309ff9d else if i == 142 then 0x0a00ae27 else
    0x7d079eb1
  }

  function Row9(i: bv32): bv32 {
    if i == 144 then 0xf00f9344 else if i == 145 then 0x8708a3d2 else if i == 146 then 0x1e01f268 else if i == 147 then 0x6906c2fe else
    if i == 148 then 0xf762575d else if i == 149 then 0x806567cb else if i == 150 then 0x196c3671 else if i == 151 then 0x6e6b06e7 else
    if i == 152 then 0xfed41b76 else if i == 153 then 0x89d32be0 else if i == 154 then 0x10da7a5a else if i == 155 then 0x67dd4acc else
    if i == 156 then 0xf9b9df6f else if i == 157 then 0x8ebeeff9 else if i == 158 then 0x17b7be43 else
    0x60b08ed5
  }

  function Row10(i: bv32): bv32 {
    if i == 160 then 0xd6d6a3e8 else if i == 161 then 0xa1d1937e else if i == 162 then 0x38d8c2c4 else if i == 163 then 0x4fdff252 else
    if i == 164 then 0xd1bb67f1 else if i == 165 then 0xa6bc5767 else if i == 166 then 0x3fb506dd else if i == 167 then 0x48b2364b else
    if i == 168 then 0xd80d2bda else if i == 169 then 0xaf0a1b4c else if i == 170 then 0x36034af6 else if i == 171 then 0x41047a60 else
    if i == 172 then 0xdf60efc3 else if i == 173 then 0xa867df55 else if i == 174 then 0x316e8eef else
    0x4669be79
  }

  function Row11(i: bv32): bv32 {
    if i == 176 then 0xcb61b38c else if i == 177 then 0xbc66831a else if i == 178 then 0x256fd2a0 else if i == 179 then 0x5268e236 else
    if i == 180 then 0xcc0c7795 else if i == 181 then 0xbb0b4703 else if i == 182 then 0x220216b9 else if i == 183 then 0x5505262f else
    if i == 184 then 0xc5ba3bbe else if i == 185 then 0xb2bd0b28 else if i == 186 then 0x2bb45a92 else if i == 187 then 0x5cb36a04 else
    if i == 188 then 0xc2d7ffa7 else if i == 189 then 0xb5d0cf31 else if i == 190 then 0x2cd99e8b else
    0x5bdeae1d
  }

  function Row12(i: bv32): bv32 {
    if i == 192 then 0x9b64c2b0 else if i == 193 then 0xec63f226 else if i == 194 then 0x756aa39c else if i == 195 then 0x026d930a else
    if i == 196 then 0x9c0906a9 else if i == 197 then 0xeb0e363f else if i == 198 then 0x72076785 else if i == 199 then 0x05005713 else
    if i == 200 then 0x95bf4a82 else if i == 201 then 0xe2b87a14 else if i == 202 then 0x7bb12bae else if i == 203 then 0x0cb61b38 else
    if i == 204 then 0x92d28e9b else if i == 205 then 0xe5d5be0d else if i == 206 then 0x7cdcefb7 else
    0x0bdbdf21
  }

  function Row13(i: bv32): bv32 {
    if i == 208 then 0x86d3d2d4 else if i == 209 then 0xf1d4e242 else if i == 210 then 0x68ddb3f8 else if i == 211 then 0x1fda836e else
    if i == 212 then 0x81be16cd else if i == 213 then 0xf6b9265b else if i == 214 then 0x6fb077e1 else if i == 215 then 0x18b74777 else
    if i == 216 then 0x88085ae6 else if i == 217 then 0xff0f6a70 else if i == 218 then 0x66063bca else if i == 219 then 0x11010b5c else
    if i == 220 then 0x8f659eff else if i == 221 then 0xf862ae69 else if i == 222 then 0x616bffd3 else
    0x166ccf45
  }

  function Row14(i: bv32): bv32 {
    if i == 224 then 0xa00ae278 else if i == 225 then 0xd70dd2ee else if i == 226 then 0x4e048354 else if i == 227 then 0x3903b3c2 else
    if i == 228 then 0xa7672661 else if i == 229 then 0xd06016f7 else if i == 230 then 0x4969474d else if i == 231 then 0x3e6e77db else
    if i == 232 then 0xaed16a4a else if i == 233 then 0xd9d65adc else if i == 234 then 0x40df0b66 else if i == 235 then 0x37d83bf0 else
    if i == 236 then 0xa9bcae53 else if i == 237 then 0xdebb9ec5 else if i == 238 then 0x47b2cf7f else
    0x30b5ffe9
  }

  function Row15(i: bv32): bv32 {
    if i == 240 then 0xbdbdf21c else if i == 241 then 0xcabac28a else if i == 242 then 0x53b39330 else if i == 243 then 0x24b4a3a6 else
    if i == 244 then 0xbad03605 else if i == 245 then 0xcdd70693 else if i == 246 then 0x54de5729 else if i == 247 then 0x23d967bf else
    if i == 248 then 0xb3667a2e else if i == 249 then 0xc4614ab8 else if i == 250 then 0x5d681b02 else if i == 251 then 0x2a6f2b94 else
    if i == 252 then 0xb40bbe37 else if i == 253 then 0xc30c8ea1 else if i == 254 then 0x5a05df1b else
    0x2d02ef8d
  }

  /** crc32_tab. */
  function Table(i: bv32): bv32 {
    if i < 16 then Row0(i)
    else if i < 32 then Row1(i)
    else if i < 48 then Row2(i)
    else if i < 64 then Row3(i)
    else if i < 80 then Row4(i)
    else if i < 96 then Row5(i)
    else if i < 112 then Row6(i)
    else if i < 128 then Row7(i)
    else if i < 144 then Row8(i)
    else if i < 160 then Row9(i)
    else if i < 176 then Row10(i)
    else if i < 192 then Row11(i)
    else if i < 208 then Row12(i)
    else if i < 224 then Row13(i)
    else if i < 240 then Row14(i)
    else Row15(i)
  }

  lemma Row0First(i: bv32)
    requires 0 <= i <= 7
    ensures Row0(i) == ByteStep(i)
  {
  }

  lemma Row0Second(i: bv32)
    requires 8 <= i <= 15
    ensures Row0(i) == ByteStep(i)
  {
  }

  lemma Row1First(i: bv32)
    requires 16 <= i <= 23
    ensures Row1(i) == ByteStep(i)
  {
  }

  lemma Row1Second(i: bv32)
    requires 24 <= i <= 31
    ensures Row1(i) == ByteStep(i)
  {
  }

  lemma Row2First(i: bv32)
    requires 32 <= i <= 39
    ensures Row2(i) == ByteStep(i)
  {
  }

  lemma Row2Second(i: bv32)
    requires 40 <= i <= 47
    ensures Row2(i) == ByteStep(i)
  {
  }

  lemma Row3First(i: bv32)
    requires 48 <= i <= 55
    ensures Row3(i) == ByteStep(i)
  {
  }

  lemma Row3Second(i: bv32)
    requires 56 <= i <= 63
    ensures Row3(i) == ByteStep(i)
  {
  }

  lemma Row4First(i: bv32)
    requires 64 <= i <= 71
    ensures Row4(i) == ByteStep(i)
  {
  }

  lemma Row4Second(i: bv32)
    requires 72 <= i <= 79
    ensures Row4(i) == ByteStep(i)
  {
  }

  lemma Row5First(i: bv32)
    requires 80 <= i <= 87
    ensures Row5(i) == ByteStep(i)
  {
  }

  lemma Row5Second(i: bv32)
    requires 88 <= i <= 95
    ensures Row5(i) == ByteStep(i)
  {
  }

  lemma Row6First(i: bv32)
    requires 96 <= i <= 103
    ensures Row6(i) == ByteStep(i)
  {
  }

  lemma Row6Second(i: bv32)
    requires 104 <= i <= 111
    ensures Row6(i) == ByteStep(i)
  {
  }

  lemma Row7First(i: bv32)
    requires 112 <= i <= 119
    ensures Row7(i) == ByteStep(i)
  {
  }

  lemma Row7Second(i: bv32)
    requires 120 <= i <= 127
    ensures Row7(i) == ByteStep(i)
  {
  }

  lemma Row8First(i: bv32)
    requires 128 <= i <= 135
    ensures Row8(i) == ByteStep(i)
  {
  }

  lemma Row8Second(i: bv32)
    requires 136 <= i <= 143
    ensures Row8(i) == ByteStep(i)
  {
  }

  lemma Row9First(i: bv32)
    requires 144 <= i <= 151
    ensures Row9(i) == ByteStep(i)
  {
  }

  lemma Row9Second(i: bv32)
    requires 152 <= i <= 159
    ensures Row9(i) == ByteStep(i)
  {
  }

  lemma Row10First(i: bv32)
    requires 160 <= i <= 167
    ensures Row10(i) == ByteStep(i)
  {
  }

  lemma Row10Second(i: bv32)
    requires 168 <= i <= 175
    ensures Row10(i) == ByteStep(i)
  {
  }

  lemma Row11First(i: bv32)
    requires 176 <= i <= 183
    ensures Row11(i) == ByteStep(i)
  {
  }

  lemma Row11Second(i: bv32)
    requires 184 <= i <= 191
    ensures Row11(i) == ByteStep(i)
  {
  }

  lemma Row12First(i: bv32)
    requires 192 <= i <= 199
    ensures Row12(i) == ByteStep(i)
  {
  }

  lemma Row12Second(i: bv32)
    requires 200 <= i <= 207
    ensures Row12(i) == ByteStep(i)
  {
  }

  lemma Row13First(i: bv32)
    requires 208 <= i <= 215
    ensures Row13(i) == ByteStep(i)
  {
  }

  lemma Row13Second(i: bv32)
    requires 216 <= i <= 223
    ensures Row13(i) == ByteStep(i)
  {
  }

  lemma Row14First(i: bv32)
    requires 224 <= i <= 231
    ensures Row14(i) == ByteStep(i)
  {
  }

  lemma Row14Second(i: bv32)
    requires 232 <= i <= 239
    ensures Row14(i) == ByteStep(i)
  {
  }

  lemma Row15First(i: bv32)
    requires 240 <= i <= 247
    ensures Row15(i) == ByteStep(i)
  {
  }

  lemma Row15Second(i: bv32)
    requires 248 <= i <= 255
    ensures Row15(i) == ByteStep(i)
  {
  }

  /** All 256 entries are right. */
  lemma TableIsDivision(i: bv32)
    requires i < 0x100
    ensures Table(i) == ByteStep(i)
  {
    hide ByteStep, Row0, Row1, Row2, Row3, Row4, Row5, Row6, Row7, Row8, Row9, Row10, Row11, Row12, Row13, Row14, Row15;
    if
    case i < 8 => Row0First(i);
    case 8 <= i < 16 => Row0Second(i);
    case 16 <= i < 24 => Row1First(i);
    case 24 <= i < 32 => Row1Second(i);
    case 32 <= i < 40 => Row2First(i);
    case 40 <= i < 48 => Row2Second(i);
    case 48 <= i < 56 => Row3First(i);
    case 56 <= i < 64 => Row3Second(i);
    case 64 <= i < 72 => Row4First(i);
    case 72 <= i < 80 => Row4Second(i);
    case 80 <= i < 88 => Row5First(i);
    case 88 <= i < 96 => Row5Second(i);
    case 96 <= i < 104 => Row6First(i);
    case 104 <= i < 112 => Row6Second(i);
    case 112 <= i < 120 => Row7First(i);
    case 120 <= i < 128 => Row7Second(i);
    case 128 <= i < 136 => Row8First(i);
    case 136 <= i < 144 => Row8Second(i);
    case 144 <= i < 152 => Row9First(i);
    case 152 <= i < 160 => Row9Second(i);
    case 160 <= i < 168 => Row10First(i);
    case 168 <= i < 176 => Row10Second(i);
    case 176 <= i < 184 => Row11First(i);
    case 184 <= i < 192 => Row11Second(i);
    case 192 <= i < 200 => Row12First(i);
    case 200 <= i < 208 => Row12Second(i);
    case 208 <= i < 216 => Row13First(i);
    case 216 <= i < 224 => Row13Second(i);
    case 224 <= i < 232 => Row14First(i);
    case 232 <= i < 240 => Row14Second(i);
    case 240 <= i < 248 => Row15First(i);
    case 248 <= i => Row15Second(i);
  }

  // ----- One table step is eight bit steps -----

  function LowByte(x: bv32): bv32 {
    x & 0xff
  }

  function HighPart(x: bv32): bv32 {
    x & 0xffffff00
  }

  function Shr4(x: bv32): bv32 {
    x >> 4
  }

  function Shr8(x: bv32): bv32 {
    x >> 8
  }

  function Shr1(x: bv32): bv32 {
    x >> 1
  }

  ghost predicate BitClear(x: bv32) {
    x & 1 == 0
  }

  ghost predicate NibbleClear(x: bv32) {
    x & 15 == 0
  }

  lemma XorShifts(a: bv32, b: bv32)
    ensures Shr1(Xor(a, b)) == Xor(Shr1(a), Shr1(b))
  {
  }

  lemma XorSwaps(x: bv32, y: bv32)
    ensures Xor(Xor(x, y), 0xedb88320) == Xor(Xor(x, 0xedb88320), y)
  {
  }

  lemma XorKeepsBit(a: bv32, b: bv32)
    requires BitClear(b)
    ensures BitClear(Xor(a, b)) == BitClear(a)
  {
  }

  lemma BitStepCases(x: bv32)
    ensures BitStep(x) == if BitClear(x) then Shr1(x) else Xor(Shr1(x), 0xedb88320)
  {
  }

  /** Bits above the lowest only shift down while that one is divided. */
  lemma BitStepSplits(a: bv32, b: bv32)
    requires BitClear(b)
    ensures BitStep(Xor(a, b)) == Xor(BitStep(a), Shr1(b))
  {
    hide BitStep, Xor, Shr1, BitClear;
    BitStepCases(Xor(a, b));
    BitStepCases(a);
    XorShifts(a, b);
    XorKeepsBit(a, b);
    XorSwaps(Shr1(a), Shr1(b));
  }

  lemma ClearBits(b: bv32)
    requires NibbleClear(b)
    ensures BitClear(b) && BitClear(Shr1(b)) && BitClear(Shr1(Shr1(b))) && BitClear(Shr1(Shr1(Shr1(b))))
    ensures Shr1(Shr1(Shr1(Shr1(b)))) == Shr4(b)
  {
  }

  /** Bits above the lowest four only shift down while those four are divided. */
  lemma NibbleStepSplits(a: bv32, b: bv32)
    requires NibbleClear(b)
    ensures NibbleStep(Xor(a, b)) == Xor(NibbleStep(a), Shr4(b))
  {
    hide BitStep, Xor, Shr1, Shr4, BitClear, NibbleClear;
    ClearBits(b);
    var a1, b1 := BitStep(a), Shr1(b);
    var a2, b2 := BitStep(a1), Shr1(b1);
    BitStepSplits(a, b);
    BitStepSplits(a1, b1);
    BitStepSplits(a2, b2);
    BitStepSplits(BitStep(a2), Shr1(b2));
  }

  lemma ByteStepXor(a: bv32, b: bv32)
    requires NibbleClear(b) && NibbleClear(Shr4(b))
    ensures ByteStep(Xor(a, b)) == Xor(ByteStep(a), Shr4(Shr4(b)))
  {
    hide NibbleStep, Xor, Shr4, NibbleClear;
    NibbleStepSplits(a, b);
    NibbleStepSplits(NibbleStep(a), Shr4(b));
  }

  lemma Parts(y: bv32)
    ensures Xor(LowByte(y), HighPart(y)) == y
    ensures NibbleClear(HighPart(y)) && NibbleClear(Shr4(HighPart(y)))
    ensures Shr4(Shr4(HighPart(y))) == Shr8(y)
    ensures LowByte(y) < 0x100
  {
  }

  /** The register's upper bytes only shift down while its low byte is divided. */
  lemma ByteStepSplits(y: bv32)
    ensures ByteStep(y) == Xor(ByteStep(LowByte(y)), Shr8(y))
  {
    hide ByteStep, Xor, LowByte, HighPart, Shr4, Shr8, NibbleClear;
    Parts(y);
    ByteStepXor(LowByte(y), HighPart(y));
  }

  lemma AddLowByte(x: bv32, b: bv8)
    ensures Shr8(Xor(x, b as bv32)) == Shr8(x)
  {
  }

  /** The table step of the loop is the division step of the definition. */
  lemma TableStep(x: bv32, b: bv8)
    ensures Xor(Table(LowByte(Xor(x, b as bv32))), Shr8(x)) == ByteStep(Xor(x, b as bv32))
  {
    hide ByteStep, Table, Xor, LowByte, Shr8;
    var y := Xor(x, b as bv32);
    Parts(y);
    AddLowByte(x, b);
    TableIsDivision(LowByte(y));
    ByteStepSplits(y);
  }

  /** ina_hash_crc32. */
  method HashCrc32(hash: bv32, data: seq<bv8>) returns (r: bv32)
    ensures r == Crc(hash, data)
  {
    hide ByteStep, Table, Complement, Divide, Xor, LowByte, Shr8;
    r := Complement(hash);
    var k := 0;
    DivideNone(r, data);
    while k < |data|
      invariant 0 <= k <= |data| && r == Divide(Complement(hash), data[..k])
    {
      TableStep(r, data[k]);
      DivideNext(Complement(hash), data, k);
      r := Xor(Table(LowByte(Xor(r, data[k] as bv32))), Shr8(r));
      k := k + 1;
    }
    assert data[..k] == data;
    r := Complement(r);
  }

  lemma DivideNone(x: bv32, data: seq<bv8>)
    ensures Divide(x, data[..0]) == x
  {
  }

  lemma DivideNext(x: bv32, data: seq<bv8>, k: nat)
    requires k < |data|
    ensures Divide(x, data[..k + 1]) == ByteStep(Xor(Divide(x, data[..k]), data[k] as bv32))
  {
    hide ByteStep, Xor;
    assert data[..k + 1][..k] == data[..k];
  }

  // ----- The check value of the CRC-32 -----

  lemma CheckDigit1()
    ensures ByteStep(Xor(0xffffffff, (0x31 as bv8) as bv32)) == 0x7c231048
  {
  }

  lemma CheckDigit2()
    ensures ByteStep(Xor(0x7c231048, (0x32 as bv8) as bv32)) == 0xb0acbb32
  {
  }

  lemma CheckDigit3()
    ensures ByteStep(Xor(0xb0acbb32, (0x33 as bv8) as bv32)) == 0x77b79c2d
  {
  }

  lemma CheckDigit4()
    ensures ByteStep(Xor(0x77b79c2d, (0x34 as bv8) as bv32)) == 0x641c1f5c
  {
  }

  lemma CheckDigit5()
    ensures ByteStep(Xor(0x641c1f5c, (0x35 as bv8) as bv32)) == 0x340ac5e3
  {
  }

  lemma CheckDigit6()
    ensures ByteStep(Xor(0x340ac5e3, (0x36 as bv8) as bv32)) == 0xf68d2c9e
  {
  }

  lemma CheckDigit7()
    ensures ByteStep(Xor(0xf68d2c9e, (0x37 as bv8) as bv32)) == 0xaffc9660
  {
  }

  lemma CheckDigit8()
    ensures ByteStep(Xor(0xaffc9660, (0x38 as bv8) as bv32)) == 0x651f2550
  {
  }

  lemma CheckDigit9()
    ensures ByteStep(Xor(0x651f2550, (0x39 as bv8) as bv32)) == 0x340bc6d9
  {
  }

  /** The CRC-32 of "123456789". */
  lemma CheckValue()
    ensures Crc(0, [0x31, 0x32, 0x33, 0x34, 0x35, 0x36, 0x37, 0x38, 0x39]) == 0xcbf43926
  {
    hide ByteStep, Divide, Xor;
    var data: seq<bv8> := [0x31, 0x32, 0x33, 0x34, 0x35, 0x36, 0x37, 0x38, 0x39];
    DivideNone(0xffffffff, data);
    CheckDigit1();
    DivideNext(0xffffffff, data, 0);
    CheckDigit2();
    DivideNext(0xffffffff, data, 1);
    CheckDigit3();
    DivideNext(0xffffffff, data, 2);
    CheckDigit4();
    DivideNext(0xffffffff, data, 3);
    CheckDigit5();
    DivideNext(0xffffffff, data, 4);
    CheckDigit6();
    DivideNext(0xffffffff, data, 5);
    CheckDigit7();
    DivideNext(0xffffffff, data, 6);
    CheckDigit8();
    DivideNext(0xffffffff, data, 7);
    CheckDigit9();
    DivideNext(0xffffffff, data, 8);
    assert data[..9] == data;
  }
}
