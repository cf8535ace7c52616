/** The logarithm tables of the Reed-Solomon codec: the powers of the primitive
    element of GF(2^8), with field polynomial 0x187, and their exponents. */
module GfTables {
  type Symbol = bv8

  // ----- The tables, sixteen entries a row -----

  function AlphaRow0(i: nat): Symbol {
    if i == 0 then 0x01 else if i == 1 then 0x02 else if i == 2 then 0x04 else if i == 3 then 0x08 else
    if i == 4 then 0x10 else if i == 5 then 0x20 else if i == 6 then 0x40 else if i == 7 then 0x80 else
    if i == 8 then 0x87 else if i == 9 then 0x89 else if i == 10 then 0x95 else if i == 11 then 0xAD else
    if i == 12 then 0xDD else if i == 13 then 0x3D else if i == 14 then 0x7A else 0xF4
  }

  function AlphaRow1(i: nat): Symbol {
    if i == 16 then 0x6F else if i == 17 then 0xDE else if i == 18 then 0x3B else if i == 19 then 0x76 else
    if i == 20 then 0xEC else if i == 21 then 0x5F else if i == 22 then 0xBE else if i == 23 then 0xFB else
    if i == 24 then 0x71 else if i == 25 then 0xE2 else if i == 26 then 0x43 else if i == 27 then 0x86 else
    if i == 28 then 0x8B else if i == 29 then 0x91 else if i == 30 then 0xA5 else 0xCD
  }

  function AlphaRow2(i: nat): Symbol {
    if i == 32 then 0x1D else if i == 33 then 0x3A else if i == 34 then 0x74 else if i == 35 then 0xE8 else
    if i == 36 then 0x57 else if i == 37 then 0xAE else if i == 38 then 0xDB else if i == 39 then 0x31 else
    if i == 40 then 0x62 else if i == 41 then 0xC4 else if i == 42 then 0x0F else if i == 43 then 0x1E else
    if i == 44 then 0x3C else if i == 45 then 0x78 else if i == 46 then 0xF0 else 0x67
  }

  function AlphaRow3(i: nat): Symbol {
    if i == 48 then 0xCE else if i == 49 then 0x1B else if i == 50 then 0x36 else if i == 51 then 0x6C else
    if i == 52 then 0xD8 else if i == 53 then 0x37 else if i == 54 then 0x6E else if i == 55 then 0xDC else
    if i == 56 then 0x3F else if i == 57 then 0x7E else if i == 58 then 0xFC else if i == 59 then 0x7F else
    if i == 60 then 0xFE else if i == 61 then 0x7B else if i == 62 then 0xF6 else 0x6B
  }

  function AlphaRow4(i: nat): Symbol {
    if i == 64 then 0xD6 else if i == 65 then 0x2B else if i == 66 then 0x56 else if i == 67 then 0xAC else
    if i == 68 then 0xDF else if i == 69 then 0x39 else if i == 70 then 0x72 else if i == 71 then 0xE4 else
    if i == 72 then 0x4F else if i == 73 then 0x9E else if i == 74 then 0xBB else if i == 75 then 0xF1 else
    if i == 76 then 0x65 else if i == 77 then 0xCA else if i == 78 then 0x13 else 0x26
  }

  function AlphaRow5(i: nat): Symbol {
    if i == 80 then 0x4C else if i == 81 then 0x98 else if i == 82 then 0xB7 else if i == 83 then 0xE9 else
    if i == 84 then 0x55 else if i == 85 then 0xAA else if i == 86 then 0xD3 else if i == 87 then 0x21 else
    if i == 88 then 0x42 else if i == 89 then 0x84 else if i == 90 then 0x8F else if i == 91 then 0x99 else
    if i == 92 then 0xB5 else if i == 93 then 0xED else if i == 94 then 0x5D else 0xBA
  }

  function AlphaRow6(i: nat): Symbol {
    if i == 96 then 0xF3 else if i == 97 then 0x61 else if i == 98 then 0xC2 else if i == 99 then 0x03 else
    if i == 100 then 0x06 else if i == 101 then 0x0C else if i == 102 then 0x18 else if i == 103 then 0x30 else
    if i == 104 then 0x60 else if i == 105 then 0xC0 else if i == 106 then 0x07 else if i == 107 then 0x0E else
    if i == 108 then 0x1C else if i == 109 then 0x38 else if i == 110 then 0x70 else 0xE0
  }

  function AlphaRow7(i: nat): Symbol {
    if i == 112 then 0x47 else if i == 113 then 0x8E else if i == 114 then 0x9B else if i == 115 then 0xB1 else
    if i == 116 then 0xE5 else if i == 117 then 0x4D else if i == 118 then 0x9A else if i == 119 then 0xB3 else
    if i == 120 then 0xE1 else if i == 121 then 0x45 else if i == 122 then 0x8A else if i == 123 then 0x93 else
    if i == 124 then 0xA1 else if i == 125 then 0xC5 else if i == 126 then 0x0D else 0x1A
  }

  function AlphaRow8(i: nat): Symbol {
    if i == 128 then 0x34 else if i == 129 then 0x68 else if i == 130 then 0xD0 else if i == 131 then 0x27 else
    if i == 132 then 0x4E else if i == 133 then 0x9C else if i == 134 then 0xBF else if i == 135 then 0xF9 else
    if i == 136 then 0x75 else if i == 137 then 0xEA else if i == 138 then 0x53 else if i == 139 then 0xA6 else
    if i == 140 then 0xCB else if i == 141 then 0x11 else if i == 142 then 0x22 else 0x44
  }

  function AlphaRow9(i: nat): Symbol {
    if i == 144 then 0x88 else if i == 145 then 0x97 else if i == 146 then 0xA9 else if i == 147 then 0xD5 else
    if i == 148 then 0x2D else if i == 149 then 0x5A else if i == 150 then 0xB4 else if i == 151 then 0xEF else
    if i == 152 then 0x59 else if i == 153 then 0xB2 else if i == 154 then 0xE3 else if i == 155 then 0x41 else
    if i == 156 then 0x82 else if i == 157 then 0x83 else if i == 158 then 0x81 else 0x85
  }

  function AlphaRow10(i: nat): Symbol {
    if i == 160 then 0x8D else if i == 161 then 0x9D else if i == 162 then 0xBD else if i == 163 then 0xFD else
    if i == 164 then 0x7D else if i == 165 then 0xFA else if i == 166 then 0x73 else if i == 167 then 0xE6 else
    if i == 168 then 0x4B else if i == 169 then 0x96 else if i == 170 then 0xAB else if i == 171 then 0xD1 else
    if i == 172 then 0x25 else if i == 173 then 0x4A else if i == 174 then 0x94 else 0xAF
  }

  function AlphaRow11(i: nat): Symbol {
    if i == 176 then 0xD9 else if i == 177 then 0x35 else if i == 178 then 0x6A else if i == 179 then 0xD4 else
    if i == 180 then 0x2F else if i == 181 then 0x5E else if i == 182 then 0xBC else if i == 183 then 0xFF else
    if i == 184 then 0x79 else if i == 185 then 0xF2 else if i == 186 then 0x63 else if i == 187 then 0xC6 else
    if i == 188 then 0x0B else if i == 189 then 0x16 else if i == 190 then 0x2C else 0x58
  }

  function AlphaRow12(i: nat): Symbol {
    if i == 192 then 0xB0 else if i == 193 then 0xE7 else if i == 194 then 0x49 else if i == 195 then 0x92 else
    if i == 196 then 0xA3 else if i == 197 then 0xC1 else if i == 198 then 0x05 else if i == 199 then 0x0A else
    if i == 200 then 0x14 else if i == 201 then 0x28 else if i == 202 then 0x50 else if i == 203 then 0xA0 else
    if i == 204 then 0xC7 else if i == 205 then 0x09 else if i == 206 then 0x12 else 0x24
  }

  function AlphaRow13(i: nat): Symbol {
    if i == 208 then 0x48 else if i == 209 then 0x90 else if i == 210 then 0xA7 else if i == 211 then 0xC9 else
    if i == 212 then 0x15 else if i == 213 then 0x2A else if i == 214 then 0x54 else if i == 215 then 0xA8 else
    if i == 216 then 0xD7 else if i == 217 then 0x29 else if i == 218 then 0x52 else if i == 219 then 0xA4 else
    if i == 220 then 0xCF else if i == 221 then 0x19 else if i == 222 then 0x32 else 0x64
  }

  function AlphaRow14(i: nat): Symbol {
    if i == 224 then 0xC8 else if i == 225 then 0x17 else if i == 226 then 0x2E else if i == 227 then 0x5C else
    if i == 228 then 0xB8 else if i == 229 then 0xF7 else if i == 230 then 0x69 else if i == 231 then 0xD2 else
    if i == 232 then 0x23 else if i == 233 then 0x46 else if i == 234 then 0x8C else if i == 235 then 0x9F else
    if i == 236 then 0xB9 else if i == 237 then 0xF5 else if i == 238 then 0x6D else 0xDA
  }

  function AlphaRow15(i: nat): Symbol {
    if i == 240 then 0x33 else if i == 241 then 0x66 else if i == 242 then 0xCC else if i == 243 then 0x1F else
    if i == 244 then 0x3E else if i == 245 then 0x7C else if i == 246 then 0xF8 else if i == 247 then 0x77 else
    if i == 248 then 0xEE else if i == 249 then 0x5B else if i == 250 then 0xB6 else if i == 251 then 0xEB else
    if i == 252 then 0x51 else if i == 253 then 0xA2 else if i == 254 then 0xC3 else 0x00
  }

  function IndexRow0(x: Symbol): nat {
    if x == 0x00 then 255 else if x == 0x01 then 0 else if x == 0x02 then 1 else if x == 0x03 then 99 else
    if x == 0x04 then 2 else if x == 0x05 then 198 else if x == 0x06 then 100 else if x == 0x07 then 106 else
    if x == 0x08 then 3 else if x == 0x09 then 205 else if x == 0x0A then 199 else if x == 0x0B then 188 else
    if x == 0x0C then 101 else if x == 0x0D then 126 else if x == 0x0E then 107 else 42
  }

  function IndexRow1(x: Symbol): nat {
    if x == 0x10 then 4 else if x == 0x11 then 141 else if x == 0x12 then 206 else if x == 0x13 then 78 else
    if x == 0x14 then 200 else if x == 0x15 then 212 else if x == 0x16 then 189 else if x == 0x17 then 225 else
    if x == 0x18 then 102 else if x == 0x19 then 221 else if x == 0x1A then 127 else if x == 0x1B then 49 else
    if x == 0x1C then 108 else if x == 0x1D then 32 else if x == 0x1E then 43 else 243
  }

  function IndexRow2(x: Symbol): nat {
    if x == 0x20 then 5 else if x == 0x21 then 87 else if x == 0x22 then 142 else if x == 0x23 then 232 else
    if x == 0x24 then 207 else if x == 0x25 then 172 else if x == 0x26 then 79 else if x == 0x27 then 131 else
    if x == 0x28 then 201 else if x == 0x29 then 217 else if x == 0x2A then 213 else if x == 0x2B then 65 else
    if x == 0x2C then 190 else if x == 0x2D then 148 else if x == 0x2E then 226 else 180
  }

  function IndexRow3(x: Symbol): nat {
    if x == 0x30 then 103 else if x == 0x31 then 39 else if x == 0x32 then 222 else if x == 0x33 then 240 else
    if x == 0x34 then 128 else if x == 0x35 then 177 else if x == 0x36 then 50 else if x == 0x37 then 53 else
    if x == 0x38 then 109 else if x == 0x39 then 69 else if x == 0x3A then 33 else if x == 0x3B then 18 else
    if x == 0x3C then 44 else if x == 0x3D then 13 else if x == 0x3E then 244 else 56
  }

  function IndexRow4(x: Symbol): nat {
    if x == 0x40 then 6 else if x == 0x41 then 155 else if x == 0x42 then 88 else if x == 0x43 then 26 else
    if x == 0x44 then 143 else if x == 0x45 then 121 else if x == 0x46 then 233 else if x == 0x47 then 112 else
    if x == 0x48 then 208 else if x == 0x49 then 194 else if x == 0x4A then 173 else if x == 0x4B then 168 else
    if x == 0x4C then 80 else if x == 0x4D then 117 else if x == 0x4E then 132 else 72
  }

  function IndexRow5(x: Symbol): nat {
    if x == 0x50 then 202 else if x == 0x51 then 252 else if x == 0x52 then 218 else if x == 0x53 then 138 else
    if x == 0x54 then 214 else if x == 0x55 then 84 else if x == 0x56 then 66 else if x == 0x57 then 36 else
    if x == 0x58 then 191 else if x == 0x59 then 152 else if x == 0x5A then 149 else if x == 0x5B then 249 else
    if x == 0x5C then 227 else if x == 0x5D then 94 else if x == 0x5E then 181 else 21
  }

  function IndexRow6(x: Symbol): nat {
    if x == 0x60 then 104 else if x == 0x61 then 97 else if x == 0x62 then 40 else if x == 0x63 then 186 else
    if x == 0x64 then 223 else if x == 0x65 then 76 else if x == 0x66 then 241 else if x == 0x67 then 47 else
    if x == 0x68 then 129 else if x == 0x69 then 230 else if x == 0x6A then 178 else if x == 0x6B then 63 else
    if x == 0x6C then 51 else if x == 0x6D then 238 else if x == 0x6E then 54 else 16
  }

  function IndexRow7(x: Symbol): nat {
    if x == 0x70 then 110 else if x == 0x71 then 24 else if x == 0x72 then 70 else if x == 0x73 then 166 else
    if x == 0x74 then 34 else if x == 0x75 then 136 else if x == 0x76 then 19 else if x == 0x77 then 247 else
    if x == 0x78 then 45 else if x == 0x79 then 184 else if x == 0x7A then 14 else if x == 0x7B then 61 else
    if x == 0x7C then 245 else if x == 0x7D then 164 else if x == 0x7E then 57 else 59
  }

  function IndexRow8(x: Symbol): nat {
    if x == 0x80 then 7 else if x == 0x81 then 158 else if x == 0x82 then 156 else if x == 0x83 then 157 else
    if x == 0x84 then 89 else if x == 0x85 then 159 else if x == 0x86 then 27 else if x == 0x87 then 8 else
    if x == 0x88 then 144 else if x == 0x89 then 9 else if x == 0x8A then 122 else if x == 0x8B then 28 else
    if x == 0x8C then 234 else if x == 0x8D then 160 else if x == 0x8E then 113 else 90
  }

  function IndexRow9(x: Symbol): nat {
    if x == 0x90 then 209 else if x == 0x91 then 29 else if x == 0x92 then 195 else if x == 0x93 then 123 else
    if x == 0x94 then 174 else if x == 0x95 then 10 else if x == 0x96 then 169 else if x == 0x97 then 145 else
    if x == 0x98 then 81 else if x == 0x99 then 91 else if x == 0x9A then 118 else if x == 0x9B then 114 else
    if x == 0x9C then 133 else if x == 0x9D then 161 else if x == 0x9E then 73 else 235
  }

  function IndexRow10(x: Symbol): nat {
    if x == 0xA0 then 203 else if x == 0xA1 then 124 else if x == 0xA2 then 253 else if x == 0xA3 then 196 else
    if x == 0xA4 then 219 else if x == 0xA5 then 30 else if x == 0xA6 then 139 else if x == 0xA7 then 210 else
    if x == 0xA8 then 215 else if x == 0xA9 then 146 else if x == 0xAA then 85 else if x == 0xAB then 170 else
    if x == 0xAC then 67 else if x == 0xAD then 11 else if x == 0xAE then 37 else 175
  }

  function IndexRow11(x: Symbol): nat {
    if x == 0xB0 then 192 else if x == 0xB1 then 115 else if x == 0xB2 then 153 else if x == 0xB3 then 119 else
    if x == 0xB4 then 150 else if x == 0xB5 then 92 else if x == 0xB6 then 250 else if x == 0xB7 then 82 else
    if x == 0xB8 then 228 else if x == 0xB9 then 236 else if x == 0xBA then 95 else if x == 0xBB then 74 else
    if x == 0xBC then 182 else if x == 0xBD then 162 else if x == 0xBE then 22 else 134
  }

  function IndexRow12(x: Symbol): nat {
    if x == 0xC0 then 105 else if x == 0xC1 then 197 else if x == 0xC2 then 98 else if x == 0xC3 then 254 else
    if x == 0xC4 then 41 else if x == 0xC5 then 125 else if x == 0xC6 then 187 else if x == 0xC7 then 204 else
    if x == 0xC8 then 224 else if x == 0xC9 then 211 else if x == 0xCA then 77 else if x == 0xCB then 140 else
    if x == 0xCC then 242 else if x == 0xCD then 31 else if x == 0xCE then 48 else 220
  }

  function IndexRow13(x: Symbol): nat {
    if x == 0xD0 then 130 else if x == 0xD1 then 171 else if x == 0xD2 then 231 else if x == 0xD3 then 86 else
    if x == 0xD4 then 179 else if x == 0xD5 then 147 else if x == 0xD6 then 64 else if x == 0xD7 then 216 else
    if x == 0xD8 then 52 else if x == 0xD9 then 176 else if x == 0xDA then 239 else if x == 0xDB then 38 else
    if x == 0xDC then 55 else if x == 0xDD then 12 else if x == 0xDE then 17 else 68
  }

  function IndexRow14(x: Symbol): nat {
    if x == 0xE0 then 111 else if x == 0xE1 then 120 else if x == 0xE2 then 25 else if x == 0xE3 then 154 else
    if x == 0xE4 then 71 else if x == 0xE5 then 116 else if x == 0xE6 then 167 else if x == 0xE7 then 193 else
    if x == 0xE8 then 35 else if x == 0xE9 then 83 else if x == 0xEA then 137 else if x == 0xEB then 251 else
    if x == 0xEC then 20 else if x == 0xED then 93 else if x == 0xEE then 248 else 151
  }

  function IndexRow15(x: Symbol): nat {
    if x == 0xF0 then 46 else if x == 0xF1 then 75 else if x == 0xF2 then 185 else if x == 0xF3 then 96 else
    if x == 0xF4 then 15 else if x == 0xF5 then 237 else if x == 0xF6 then 62 else if x == 0xF7 then 229 else
    if x == 0xF8 then 246 else if x == 0xF9 then 135 else if x == 0xFA then 165 else if x == 0xFB then 23 else
    if x == 0xFC then 58 else if x == 0xFD then 163 else if x == 0xFE then 60 else 183
  }

  /** ALPHA_TO: the powers of the primitive element; entry 255 stands for zero. */
  function AlphaTo(i: nat): Symbol {
    if i < 16 then AlphaRow0(i) else
    if i < 32 then AlphaRow1(i) else
    if i < 48 then AlphaRow2(i) else
    if i < 64 then AlphaRow3(i) else
    if i < 80 then AlphaRow4(i) else
    if i < 96 then AlphaRow5(i) else
    if i < 112 then AlphaRow6(i) else
    if i < 128 then AlphaRow7(i) else
    if i < 144 then AlphaRow8(i) else
    if i < 160 then AlphaRow9(i) else
    if i < 176 then AlphaRow10(i) else
    if i < 192 then AlphaRow11(i) else
    if i < 208 then AlphaRow12(i) else
    if i < 224 then AlphaRow13(i) else
    if i < 240 then AlphaRow14(i) else AlphaRow15(i)
  }

  /** The index form of zero. */
  const A0: nat := 255

  /** INDEX_OF: the logarithms, and A0 for zero. */
  function IndexOf(x: Symbol): nat {
    if x < 0x10 then IndexRow0(x) else
    if x < 0x20 then IndexRow1(x) else
    if x < 0x30 then IndexRow2(x) else
    if x < 0x40 then IndexRow3(x) else
    if x < 0x50 then IndexRow4(x) else
    if x < 0x60 then IndexRow5(x) else
    if x < 0x70 then IndexRow6(x) else
    if x < 0x80 then IndexRow7(x) else
    if x < 0x90 then IndexRow8(x) else
    if x < 0xA0 then IndexRow9(x) else
    if x < 0xB0 then IndexRow10(x) else
    if x < 0xC0 then IndexRow11(x) else
    if x < 0xD0 then IndexRow12(x) else
    if x < 0xE0 then IndexRow13(x) else
    if x < 0xF0 then IndexRow14(x) else IndexRow15(x)
  }

  predicate High(x: Symbol) {
    x & 0x80 != 0
  }

  function Double(x: Symbol): Symbol {
    x << 1
  }

  function Reduced(x: Symbol): Symbol {
    x ^ 0x87
  }

  /** Multiplication by the primitive element, modulo the field polynomial. */
  function Times2(x: Symbol): Symbol {
    if High(x) then Reduced(Double(x)) else Double(x)
  }

  predicate AlphaStep(i: nat) {
    AlphaTo(i + 1) == Times2(AlphaTo(i)) && (i > 0 ==> AlphaTo(i) != 1)
  }

  lemma AlphaSteps0(i: nat)
    requires 0 <= i < 16
    ensures AlphaStep(i)
  {}

  lemma AlphaSteps1(i: nat)
    requires 16 <= i < 32
    ensures AlphaStep(i)
  {}

  lemma AlphaSteps2(i: nat)
    requires 32 <= i < 48
    ensures AlphaStep(i)
  {}

  lemma AlphaSteps3(i: nat)
    requires 48 <= i < 64
    ensures AlphaStep(i)
  {}

  lemma AlphaSteps4(i: nat)
    requires 64 <= i < 80
    ensures AlphaStep(i)
  {}

  lemma AlphaSteps5(i: nat)
    requires 80 <= i < 96
    ensures AlphaStep(i)
  {}

  lemma AlphaSteps6(i: nat)
    requires 96 <= i < 112
    ensures AlphaStep(i)
  {}

  lemma AlphaSteps7(i: nat)
    requires 112 <= i < 128
    ensures AlphaStep(i)
  {}

  lemma AlphaSteps8(i: nat)
    requires 128 <= i < 144
    ensures AlphaStep(i)
  {}

  lemma AlphaSteps9(i: nat)
    requires 144 <= i < 160
    ensures AlphaStep(i)
  {}

  lemma AlphaSteps10(i: nat)
    requires 160 <= i < 176
    ensures AlphaStep(i)
  {}

  lemma AlphaSteps11(i: nat)
    requires 176 <= i < 192
    ensures AlphaStep(i)
  {}

  lemma AlphaSteps12(i: nat)
    requires 192 <= i < 208
    ensures AlphaStep(i)
  {}

  lemma AlphaSteps13(i: nat)
    requires 208 <= i < 224
    ensures AlphaStep(i)
  {}

  lemma AlphaSteps14(i: nat)
    requires 224 <= i < 240
    ensures AlphaStep(i)
  {}

  lemma AlphaSteps15(i: nat)
    requires 240 <= i < 254
    ensures AlphaStep(i)
  {}

  lemma IndexRight0(x: Symbol)
    requires 0x01 <= x < 0x10
    ensures IndexOf(x) < 255 && AlphaTo(IndexOf(x)) == x
  {
    if x == 0x01 {} else if x == 0x02 {} else if x == 0x03 {} else if x == 0x04 {}
    else if x == 0x05 {} else if x == 0x06 {} else if x == 0x07 {} else if x == 0x08 {}
    else if x == 0x09 {} else if x == 0x0A {} else if x == 0x0B {} else if x == 0x0C {}
    else if x == 0x0D {} else if x == 0x0E {} else {}
  }

  lemma IndexRight1(x: Symbol)
    requires 0x10 <= x < 0x20
    ensures IndexOf(x) < 255 && AlphaTo(IndexOf(x)) == x
  {
    if x == 0x10 {} else if x == 0x11 {} else if x == 0x12 {} else if x == 0x13 {}
    else if x == 0x14 {} else if x == 0x15 {} else if x == 0x16 {} else if x == 0x17 {}
    else if x == 0x18 {} else if x == 0x19 {} else if x == 0x1A {} else if x == 0x1B {}
    else if x == 0x1C {} else if x == 0x1D {} else if x == 0x1E {} else {}
  }

  lemma IndexRight2(x: Symbol)
    requires 0x20 <= x < 0x30
    ensures IndexOf(x) < 255 && AlphaTo(IndexOf(x)) == x
  {
    if x == 0x20 {} else if x == 0x21 {} else if x == 0x22 {} else if x == 0x23 {}
    else if x == 0x24 {} else if x == 0x25 {} else if x == 0x26 {} else if x == 0x27 {}
    else if x == 0x28 {} else if x == 0x29 {} else if x == 0x2A {} else if x == 0x2B {}
    else if x == 0x2C {} else if x == 0x2D {} else if x == 0x2E {} else {}
  }

  lemma IndexRight3(x: Symbol)
    requires 0x30 <= x < 0x40
    ensures IndexOf(x) < 255 && AlphaTo(IndexOf(x)) == x
  {
    if x == 0x30 {} else if x == 0x31 {} else if x == 0x32 {} else if x == 0x33 {}
    else if x == 0x34 {} else if x == 0x35 {} else if x == 0x36 {} else if x == 0x37 {}
    else if x == 0x38 {} else if x == 0x39 {} else if x == 0x3A {} else if x == 0x3B {}
    else if x == 0x3C {} else if x == 0x3D {} else if x == 0x3E {} else {}
  }

  lemma IndexRight4(x: Symbol)
    requires 0x40 <= x < 0x50
    ensures IndexOf(x) < 255 && AlphaTo(IndexOf(x)) == x
  {
    if x == 0x40 {} else if x == 0x41 {} else if x == 0x42 {} else if x == 0x43 {}
    else if x == 0x44 {} else if x == 0x45 {} else if x == 0x46 {} else if x == 0x47 {}
    else if x == 0x48 {} else if x == 0x49 {} else if x == 0x4A {} else if x == 0x4B {}
    else if x == 0x4C {} else if x == 0x4D {} else if x == 0x4E {} else {}
  }

  lemma IndexRight5(x: Symbol)
    requires 0x50 <= x < 0x60
    ensures IndexOf(x) < 255 && AlphaTo(IndexOf(x)) == x
  {
    if x == 0x50 {} else if x == 0x51 {} else if x == 0x52 {} else if x == 0x53 {}
    else if x == 0x54 {} else if x == 0x55 {} else if x == 0x56 {} else if x == 0x57 {}
    else if x == 0x58 {} else if x == 0x59 {} else if x == 0x5A {} else if x == 0x5B {}
    else if x == 0x5C {} else if x == 0x5D {} else if x == 0x5E {} else {}
  }

  lemma IndexRight6(x: Symbol)
    requires 0x60 <= x < 0x70
    ensures IndexOf(x) < 255 && AlphaTo(IndexOf(x)) == x
  {
    if x == 0x60 {} else if x == 0x61 {} else if x == 0x62 {} else if x == 0x63 {}
    else if x == 0x64 {} else if x == 0x65 {} else if x == 0x66 {} else if x == 0x67 {}
    else if x == 0x68 {} else if x == 0x69 {} else if x == 0x6A {} else if x == 0x6B {}
    else if x == 0x6C {} else if x == 0x6D {} else if x == 0x6E {} else {}
  }

  lemma IndexRight7(x: Symbol)
    requires 0x70 <= x < 0x80
    ensures IndexOf(x) < 255 && AlphaTo(IndexOf(x)) == x
  {
    if x == 0x70 {} else if x == 0x71 {} else if x == 0x72 {} else if x == 0x73 {}
    else if x == 0x74 {} else if x == 0x75 {} else if x == 0x76 {} else if x == 0x77 {}
    else if x == 0x78 {} else if x == 0x79 {} else if x == 0x7A {} else if x == 0x7B {}
    else if x == 0x7C {} else if x == 0x7D {} else if x == 0x7E {} else {}
  }

  lemma IndexRight8(x: Symbol)
    requires 0x80 <= x < 0x90
    ensures IndexOf(x) < 255 && AlphaTo(IndexOf(x)) == x
  {
    if x == 0x80 {} else if x == 0x81 {} else if x == 0x82 {} else if x == 0x83 {}
    else if x == 0x84 {} else if x == 0x85 {} else if x == 0x86 {} else if x == 0x87 {}
    else if x == 0x88 {} else if x == 0x89 {} else if x == 0x8A {} else if x == 0x8B {}
    else if x == 0x8C {} else if x == 0x8D {} else if x == 0x8E {} else {}
  }

  lemma IndexRight9(x: Symbol)
    requires 0x90 <= x < 0xA0
    ensures IndexOf(x) < 255 && AlphaTo(IndexOf(x)) == x
  {
    if x == 0x90 {} else if x == 0x91 {} else if x == 0x92 {} else if x == 0x93 {}
    else if x == 0x94 {} else if x == 0x95 {} else if x == 0x96 {} else if x == 0x97 {}
    else if x == 0x98 {} else if x == 0x99 {} else if x == 0x9A {} else if x == 0x9B {}
    else if x == 0x9C {} else if x == 0x9D {} else if x == 0x9E {} else {}
  }

  lemma IndexRight10(x: Symbol)
    requires 0xA0 <= x < 0xB0
    ensures IndexOf(x) < 255 && AlphaTo(IndexOf(x)) == x
  {
    if x == 0xA0 {} else if x == 0xA1 {} else if x == 0xA2 {} else if x == 0xA3 {}
    else if x == 0xA4 {} else if x == 0xA5 {} else if x == 0xA6 {} else if x == 0xA7 {}
    else if x == 0xA8 {} else if x == 0xA9 {} else if x == 0xAA {} else if x == 0xAB {}
    else if x == 0xAC {} else if x == 0xAD {} else if x == 0xAE {} else {}
  }

  lemma IndexRight11(x: Symbol)
    requires 0xB0 <= x < 0xC0
    ensures IndexOf(x) < 255 && AlphaTo(IndexOf(x)) == x
  {
    if x == 0xB0 {} else if x == 0xB1 {} else if x == 0xB2 {} else if x == 0xB3 {}
    else if x == 0xB4 {} else if x == 0xB5 {} else if x == 0xB6 {} else if x == 0xB7 {}
    else if x == 0xB8 {} else if x == 0xB9 {} else if x == 0xBA {} else if x == 0xBB {}
    else if x == 0xBC {} else if x == 0xBD {} else if x == 0xBE {} else {}
  }

  lemma IndexRight12(x: Symbol)
    requires 0xC0 <= x < 0xD0
    ensures IndexOf(x) < 255 && AlphaTo(IndexOf(x)) == x
  {
    if x == 0xC0 {} else if x == 0xC1 {} else if x == 0xC2 {} else if x == 0xC3 {}
    else if x == 0xC4 {} else if x == 0xC5 {} else if x == 0xC6 {} else if x == 0xC7 {}
    else if x == 0xC8 {} else if x == 0xC9 {} else if x == 0xCA {} else if x == 0xCB {}
    else if x == 0xCC {} else if x == 0xCD {} else if x == 0xCE {} else {}
  }

  lemma IndexRight13(x: Symbol)
    requires 0xD0 <= x < 0xE0
    ensures IndexOf(x) < 255 && AlphaTo(IndexOf(x)) == x
  {
    if x == 0xD0 {} else if x == 0xD1 {} else if x == 0xD2 {} else if x == 0xD3 {}
    else if x == 0xD4 {} else if x == 0xD5 {} else if x == 0xD6 {} else if x == 0xD7 {}
    else if x == 0xD8 {} else if x == 0xD9 {} else if x == 0xDA {} else if x == 0xDB {}
    else if x == 0xDC {} else if x == 0xDD {} else if x == 0xDE {} else {}
  }

  lemma IndexRight14(x: Symbol)
    requires 0xE0 <= x < 0xF0
    ensures IndexOf(x) < 255 && AlphaTo(IndexOf(x)) == x
  {
    if x == 0xE0 {} else if x == 0xE1 {} else if x == 0xE2 {} else if x == 0xE3 {}
    else if x == 0xE4 {} else if x == 0xE5 {} else if x == 0xE6 {} else if x == 0xE7 {}
    else if x == 0xE8 {} else if x == 0xE9 {} else if x == 0xEA {} else if x == 0xEB {}
    else if x == 0xEC {} else if x == 0xED {} else if x == 0xEE {} else {}
  }

  lemma IndexRight15(x: Symbol)
    requires 0xF0 <= x
    ensures IndexOf(x) < 255 && AlphaTo(IndexOf(x)) == x
  {
    if x == 0xF0 {} else if x == 0xF1 {} else if x == 0xF2 {} else if x == 0xF3 {}
    else if x == 0xF4 {} else if x == 0xF5 {} else if x == 0xF6 {} else if x == 0xF7 {}
    else if x == 0xF8 {} else if x == 0xF9 {} else if x == 0xFA {} else if x == 0xFB {}
    else if x == 0xFC {} else if x == 0xFD {} else if x == 0xFE {} else {}
  }

  /** Every entry of ALPHA_TO is the one before times the primitive element. */
  lemma AlphaSteps(i: nat)
    requires i < 254
    ensures AlphaStep(i)
  {
    hide AlphaTo, Times2, AlphaStep;
    if i < 16 { AlphaSteps0(i); } else if i < 32 { AlphaSteps1(i); } else if i < 48 { AlphaSteps2(i); }
    else if i < 64 { AlphaSteps3(i); } else if i < 80 { AlphaSteps4(i); } else if i < 96 { AlphaSteps5(i); }
    else if i < 112 { AlphaSteps6(i); } else if i < 128 { AlphaSteps7(i); } else if i < 144 { AlphaSteps8(i); }
    else if i < 160 { AlphaSteps9(i); } else if i < 176 { AlphaSteps10(i); } else if i < 192 { AlphaSteps11(i); }
    else if i < 208 { AlphaSteps12(i); } else if i < 224 { AlphaSteps13(i); } else if i < 240 { AlphaSteps14(i); }
    else { AlphaSteps15(i); }
  }

  lemma AlphaEnds()
    ensures AlphaTo(0) == 1 && AlphaTo(254) != 1 && Times2(AlphaTo(254)) == 1 && AlphaTo(255) == 0
  {}

  /** INDEX_OF undoes ALPHA_TO. */
  lemma IndexRight(x: Symbol)
    requires x != 0
    ensures IndexOf(x) < 255 && AlphaTo(IndexOf(x)) == x
  {
    hide AlphaTo, IndexOf;
    if x < 0x10 { IndexRight0(x); } else if x < 0x20 { IndexRight1(x); } else if x < 0x30 { IndexRight2(x); }
    else if x < 0x40 { IndexRight3(x); } else if x < 0x50 { IndexRight4(x); } else if x < 0x60 { IndexRight5(x); }
    else if x < 0x70 { IndexRight6(x); } else if x < 0x80 { IndexRight7(x); } else if x < 0x90 { IndexRight8(x); }
    else if x < 0xA0 { IndexRight9(x); } else if x < 0xB0 { IndexRight10(x); } else if x < 0xC0 { IndexRight11(x); }
    else if x < 0xD0 { IndexRight12(x); } else if x < 0xE0 { IndexRight13(x); } else if x < 0xF0 { IndexRight14(x); }
    else { IndexRight15(x); }
  }

  lemma IndexOfZero()
    ensures IndexOf(0) == A0
  {}
}
