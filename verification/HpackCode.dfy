/**
  The Huffman code of core/tincd/src/h3_huffman.h (Appendix B of RFC 7541), and the proof that it is a
  valid code: canonical, prefix-free, at most 30 bits, EOS all ones.
  */
module HpackCode {
  import opened Bits
  import opened Huffman
  import opened StringLiteral

  // ---------- The table ----------

  /** huff_len */
  function Length(s: nat): nat {
    if s < 64 then Length0(s) else if s < 128 then Length64(s)
    else if s < 192 then Length128(s) else Length192(s)
  }

  function Length0(s: nat): nat {
    match s
    case 0 => 13 case 1 => 23 case 2 => 28 case 3 => 28 case 4 => 28 case 5 => 28 case 6 => 28 case 7 => 28
    case 8 => 28 case 9 => 24 case 10 => 30 case 11 => 28 case 12 => 28 case 13 => 30 case 14 => 28
    case 15 => 28 case 16 => 28 case 17 => 28 case 18 => 28 case 19 => 28 case 20 => 28 case 21 => 28
    case 22 => 30 case 23 => 28 case 24 => 28 case 25 => 28 case 26 => 28 case 27 => 28 case 28 => 28
    case 29 => 28 case 30 => 28 case 31 => 28 case 32 => 6 case 33 => 10 case 34 => 10 case 35 => 12
    case 36 => 13 case 37 => 6 case 38 => 8 case 39 => 11 case 40 => 10 case 41 => 10 case 42 => 8
    case 43 => 11 case 44 => 8 case 45 => 6 case 46 => 6 case 47 => 6 case 48 => 5 case 49 => 5 case 50 => 5
    case 51 => 6 case 52 => 6 case 53 => 6 case 54 => 6 case 55 => 6 case 56 => 6 case 57 => 6 case 58 => 7
    case 59 => 8 case 60 => 15 case 61 => 6 case 62 => 12 case _ => 10
  }

  function Length64(s: nat): nat {
    match s
    case 64 => 13 case 65 => 6 case 66 => 7 case 67 => 7 case 68 => 7 case 69 => 7 case 70 => 7 case 71 => 7
    case 72 => 7 case 73 => 7 case 74 => 7 case 75 => 7 case 76 => 7 case 77 => 7 case 78 => 7 case 79 => 7
    case 80 => 7 case 81 => 7 case 82 => 7 case 83 => 7 case 84 => 7 case 85 => 7 case 86 => 7 case 87 => 7
    case 88 => 8 case 89 => 7 case 90 => 8 case 91 => 13 case 92 => 19 case 93 => 13 case 94 => 14
    case 95 => 6 case 96 => 15 case 97 => 5 case 98 => 6 case 99 => 5 case 100 => 6 case 101 => 5
    case 102 => 6 case 103 => 6 case 104 => 6 case 105 => 5 case 106 => 7 case 107 => 7 case 108 => 6
    case 109 => 6 case 110 => 6 case 111 => 5 case 112 => 6 case 113 => 7 case 114 => 6 case 115 => 5
    case 116 => 5 case 117 => 6 case 118 => 7 case 119 => 7 case 120 => 7 case 121 => 7 case 122 => 7
    case 123 => 15 case 124 => 11 case 125 => 14 case 126 => 13 case _ => 28
  }

  function Length128(s: nat): nat {
    match s
    case 128 => 20 case 129 => 22 case 130 => 20 case 131 => 20 case 132 => 22 case 133 => 22 case 134 => 22
    case 135 => 23 case 136 => 22 case 137 => 23 case 138 => 23 case 139 => 23 case 140 => 23 case 141 => 23
    case 142 => 24 case 143 => 23 case 144 => 24 case 145 => 24 case 146 => 22 case 147 => 23 case 148 => 24
    case 149 => 23 case 150 => 23 case 151 => 23 case 152 => 23 case 153 => 21 case 154 => 22 case 155 => 23
    case 156 => 22 case 157 => 23 case 158 => 23 case 159 => 24 case 160 => 22 case 161 => 21 case 162 => 20
    case 163 => 22 case 164 => 22 case 165 => 23 case 166 => 23 case 167 => 21 case 168 => 23 case 169 => 22
    case 170 => 22 case 171 => 24 case 172 => 21 case 173 => 22 case 174 => 23 case 175 => 23 case 176 => 21
    case 177 => 21 case 178 => 22 case 179 => 21 case 180 => 23 case 181 => 22 case 182 => 23 case 183 => 23
    case 184 => 20 case 185 => 22 case 186 => 22 case 187 => 22 case 188 => 23 case 189 => 22 case 190 => 22
    case _ => 23
  }

  function Length192(s: nat): nat {
    match s
    case 192 => 26 case 193 => 26 case 194 => 20 case 195 => 19 case 196 => 22 case 197 => 23 case 198 => 22
    case 199 => 25 case 200 => 26 case 201 => 26 case 202 => 26 case 203 => 27 case 204 => 27 case 205 => 26
    case 206 => 24 case 207 => 25 case 208 => 19 case 209 => 21 case 210 => 26 case 211 => 27 case 212 => 27
    case 213 => 26 case 214 => 27 case 215 => 24 case 216 => 21 case 217 => 21 case 218 => 26 case 219 => 26
    case 220 => 28 case 221 => 27 case 222 => 27 case 223 => 27 case 224 => 20 case 225 => 24 case 226 => 20
    case 227 => 21 case 228 => 22 case 229 => 21 case 230 => 21 case 231 => 23 case 232 => 22 case 233 => 22
    case 234 => 25 case 235 => 25 case 236 => 24 case 237 => 24 case 238 => 26 case 239 => 23 case 240 => 26
    case 241 => 27 case 242 => 26 case 243 => 26 case 244 => 27 case 245 => 27 case 246 => 27 case 247 => 27
    case 248 => 27 case 249 => 28 case 250 => 27 case 251 => 27 case 252 => 27 case 253 => 27 case 254 => 27
    case 255 => 26 case _ => 30
  }

  /** huff_code */
  function CodeOf(s: nat): nat {
    if s < 64 then CodeOf0(s) else if s < 128 then CodeOf64(s)
    else if s < 192 then CodeOf128(s) else CodeOf192(s)
  }

  function CodeOf0(s: nat): nat {
    match s
    case 0 => 0x1ff8 case 1 => 0x7fffd8 case 2 => 0xfffffe2 case 3 => 0xfffffe3 case 4 => 0xfffffe4
    case 5 => 0xfffffe5 case 6 => 0xfffffe6 case 7 => 0xfffffe7 case 8 => 0xfffffe8 case 9 => 0xffffea
    case 10 => 0x3ffffffc case 11 => 0xfffffe9 case 12 => 0xfffffea case 13 => 0x3ffffffd case 14 => 0xfffffeb
    case 15 => 0xfffffec case 16 => 0xfffffed case 17 => 0xfffffee case 18 => 0xfffffef case 19 => 0xffffff0
    case 20 => 0xffffff1 case 21 => 0xffffff2 case 22 => 0x3ffffffe case 23 => 0xffffff3 case 24 => 0xffffff4
    case 25 => 0xffffff5 case 26 => 0xffffff6 case 27 => 0xffffff7 case 28 => 0xffffff8 case 29 => 0xffffff9
    case 30 => 0xffffffa case 31 => 0xffffffb case 32 => 0x14 case 33 => 0x3f8 case 34 => 0x3f9
    case 35 => 0xffa case 36 => 0x1ff9 case 37 => 0x15 case 38 => 0xf8 case 39 => 0x7fa case 40 => 0x3fa
    case 41 => 0x3fb case 42 => 0xf9 case 43 => 0x7fb case 44 => 0xfa case 45 => 0x16 case 46 => 0x17
    case 47 => 0x18 case 48 => 0x0 case 49 => 0x1 case 50 => 0x2 case 51 => 0x19 case 52 => 0x1a
    case 53 => 0x1b case 54 => 0x1c case 55 => 0x1d case 56 => 0x1e case 57 => 0x1f case 58 => 0x5c
    case 59 => 0xfb case 60 => 0x7ffc case 61 => 0x20 case 62 => 0xffb case _ => 0x3fc
  }

  function CodeOf64(s: nat): nat {
    match s
    case 64 => 0x1ffa case 65 => 0x21 case 66 => 0x5d case 67 => 0x5e case 68 => 0x5f case 69 => 0x60
    case 70 => 0x61 case 71 => 0x62 case 72 => 0x63 case 73 => 0x64 case 74 => 0x65 case 75 => 0x66
    case 76 => 0x67 case 77 => 0x68 case 78 => 0x69 case 79 => 0x6a case 80 => 0x6b case 81 => 0x6c
    case 82 => 0x6d case 83 => 0x6e case 84 => 0x6f case 85 => 0x70 case 86 => 0x71 case 87 => 0x72
    case 88 => 0xfc case 89 => 0x73 case 90 => 0xfd case 91 => 0x1ffb case 92 => 0x7fff0 case 93 => 0x1ffc
    case 94 => 0x3ffc case 95 => 0x22 case 96 => 0x7ffd case 97 => 0x3 case 98 => 0x23 case 99 => 0x4
    case 100 => 0x24 case 101 => 0x5 case 102 => 0x25 case 103 => 0x26 case 104 => 0x27 case 105 => 0x6
    case 106 => 0x74 case 107 => 0x75 case 108 => 0x28 case 109 => 0x29 case 110 => 0x2a case 111 => 0x7
    case 112 => 0x2b case 113 => 0x76 case 114 => 0x2c case 115 => 0x8 case 116 => 0x9 case 117 => 0x2d
    case 118 => 0x77 case 119 => 0x78 case 120 => 0x79 case 121 => 0x7a case 122 => 0x7b case 123 => 0x7ffe
    case 124 => 0x7fc case 125 => 0x3ffd case 126 => 0x1ffd case _ => 0xffffffc
  }

  function CodeOf128(s: nat): nat {
    match s
    case 128 => 0xfffe6 case 129 => 0x3fffd2 case 130 => 0xfffe7 case 131 => 0xfffe8 case 132 => 0x3fffd3
    case 133 => 0x3fffd4 case 134 => 0x3fffd5 case 135 => 0x7fffd9 case 136 => 0x3fffd6 case 137 => 0x7fffda
    case 138 => 0x7fffdb case 139 => 0x7fffdc case 140 => 0x7fffdd case 141 => 0x7fffde case 142 => 0xffffeb
    case 143 => 0x7fffdf case 144 => 0xffffec case 145 => 0xffffed case 146 => 0x3fffd7 case 147 => 0x7fffe0
    case 148 => 0xffffee case 149 => 0x7fffe1 case 150 => 0x7fffe2 case 151 => 0x7fffe3 case 152 => 0x7fffe4
    case 153 => 0x1fffdc case 154 => 0x3fffd8 case 155 => 0x7fffe5 case 156 => 0x3fffd9 case 157 => 0x7fffe6
    case 158 => 0x7fffe7 case 159 => 0xffffef case 160 => 0x3fffda case 161 => 0x1fffdd case 162 => 0xfffe9
    case 163 => 0x3fffdb case 164 => 0x3fffdc case 165 => 0x7fffe8 case 166 => 0x7fffe9 case 167 => 0x1fffde
    case 168 => 0x7fffea case 169 => 0x3fffdd case 170 => 0x3fffde case 171 => 0xfffff0 case 172 => 0x1fffdf
    case 173 => 0x3fffdf case 174 => 0x7fffeb case 175 => 0x7fffec case 176 => 0x1fffe0 case 177 => 0x1fffe1
    case 178 => 0x3fffe0 case 179 => 0x1fffe2 case 180 => 0x7fffed case 181 => 0x3fffe1 case 182 => 0x7fffee
    case 183 => 0x7fffef case 184 => 0xfffea case 185 => 0x3fffe2 case 186 => 0x3fffe3 case 187 => 0x3fffe4
    case 188 => 0x7ffff0 case 189 => 0x3fffe5 case 190 => 0x3fffe6 case _ => 0x7ffff1
  }

  function CodeOf192(s: nat): nat {
    match s
    case 192 => 0x3ffffe0 case 193 => 0x3ffffe1 case 194 => 0xfffeb case 195 => 0x7fff1 case 196 => 0x3fffe7
    case 197 => 0x7ffff2 case 198 => 0x3fffe8 case 199 => 0x1ffffec case 200 => 0x3ffffe2
    case 201 => 0x3ffffe3 case 202 => 0x3ffffe4 case 203 => 0x7ffffde case 204 => 0x7ffffdf
    case 205 => 0x3ffffe5 case 206 => 0xfffff1 case 207 => 0x1ffffed case 208 => 0x7fff2 case 209 => 0x1fffe3
    case 210 => 0x3ffffe6 case 211 => 0x7ffffe0 case 212 => 0x7ffffe1 case 213 => 0x3ffffe7
    case 214 => 0x7ffffe2 case 215 => 0xfffff2 case 216 => 0x1fffe4 case 217 => 0x1fffe5 case 218 => 0x3ffffe8
    case 219 => 0x3ffffe9 case 220 => 0xffffffd case 221 => 0x7ffffe3 case 222 => 0x7ffffe4
    case 223 => 0x7ffffe5 case 224 => 0xfffec case 225 => 0xfffff3 case 226 => 0xfffed case 227 => 0x1fffe6
    case 228 => 0x3fffe9 case 229 => 0x1fffe7 case 230 => 0x1fffe8 case 231 => 0x7ffff3 case 232 => 0x3fffea
    case 233 => 0x3fffeb case 234 => 0x1ffffee case 235 => 0x1ffffef case 236 => 0xfffff4 case 237 => 0xfffff5
    case 238 => 0x3ffffea case 239 => 0x7ffff4 case 240 => 0x3ffffeb case 241 => 0x7ffffe6
    case 242 => 0x3ffffec case 243 => 0x3ffffed case 244 => 0x7ffffe7 case 245 => 0x7ffffe8
    case 246 => 0x7ffffe9 case 247 => 0x7ffffea case 248 => 0x7ffffeb case 249 => 0xffffffe
    case 250 => 0x7ffffec case 251 => 0x7ffffed case 252 => 0x7ffffee case 253 => 0x7ffffef
    case 254 => 0x7fffff0 case 255 => 0x3ffffee case _ => 0x3fffffff
  }

  /** huff_len and huff_code together. */
  function Hpack(): (c: Code)
    ensures |c.len| == SYMBOLS && |c.code| == SYMBOLS
    ensures forall s :: 0 <= s < SYMBOLS ==> c.len[s] == Length(s) && c.code[s] == CodeOf(s)
  {
    Code(seq(SYMBOLS, s requires 0 <= s => Length(s)), seq(SYMBOLS, s requires 0 <= s => CodeOf(s)))
  }

  // ---------- Symbols sorted by length ----------

  /** The symbols in order of length, then of value. */
  function Sorted(n: nat): nat {
    if n < 64 then Sorted0(n) else if n < 128 then Sorted64(n)
    else if n < 192 then Sorted128(n) else Sorted192(n)
  }

  function Sorted0(n: nat): nat {
    match n
    case 0 => 48 case 1 => 49 case 2 => 50 case 3 => 97 case 4 => 99 case 5 => 101 case 6 => 105 case 7 => 111
    case 8 => 115 case 9 => 116 case 10 => 32 case 11 => 37 case 12 => 45 case 13 => 46 case 14 => 47
    case 15 => 51 case 16 => 52 case 17 => 53 case 18 => 54 case 19 => 55 case 20 => 56 case 21 => 57
    case 22 => 61 case 23 => 65 case 24 => 95 case 25 => 98 case 26 => 100 case 27 => 102 case 28 => 103
    case 29 => 104 case 30 => 108 case 31 => 109 case 32 => 110 case 33 => 112 case 34 => 114 case 35 => 117
    case 36 => 58 case 37 => 66 case 38 => 67 case 39 => 68 case 40 => 69 case 41 => 70 case 42 => 71
    case 43 => 72 case 44 => 73 case 45 => 74 case 46 => 75 case 47 => 76 case 48 => 77 case 49 => 78
    case 50 => 79 case 51 => 80 case 52 => 81 case 53 => 82 case 54 => 83 case 55 => 84 case 56 => 85
    case 57 => 86 case 58 => 87 case 59 => 89 case 60 => 106 case 61 => 107 case 62 => 113 case _ => 118
  }

  function Sorted64(n: nat): nat {
    match n
    case 64 => 119 case 65 => 120 case 66 => 121 case 67 => 122 case 68 => 38 case 69 => 42 case 70 => 44
    case 71 => 59 case 72 => 88 case 73 => 90 case 74 => 33 case 75 => 34 case 76 => 40 case 77 => 41
    case 78 => 63 case 79 => 39 case 80 => 43 case 81 => 124 case 82 => 35 case 83 => 62 case 84 => 0
    case 85 => 36 case 86 => 64 case 87 => 91 case 88 => 93 case 89 => 126 case 90 => 94 case 91 => 125
    case 92 => 60 case 93 => 96 case 94 => 123 case 95 => 92 case 96 => 195 case 97 => 208 case 98 => 128
    case 99 => 130 case 100 => 131 case 101 => 162 case 102 => 184 case 103 => 194 case 104 => 224
    case 105 => 226 case 106 => 153 case 107 => 161 case 108 => 167 case 109 => 172 case 110 => 176
    case 111 => 177 case 112 => 179 case 113 => 209 case 114 => 216 case 115 => 217 case 116 => 227
    case 117 => 229 case 118 => 230 case 119 => 129 case 120 => 132 case 121 => 133 case 122 => 134
    case 123 => 136 case 124 => 146 case 125 => 154 case 126 => 156 case _ => 160
  }

  function Sorted128(n: nat): nat {
    match n
    case 128 => 163 case 129 => 164 case 130 => 169 case 131 => 170 case 132 => 173 case 133 => 178
    case 134 => 181 case 135 => 185 case 136 => 186 case 137 => 187 case 138 => 189 case 139 => 190
    case 140 => 196 case 141 => 198 case 142 => 228 case 143 => 232 case 144 => 233 case 145 => 1
    case 146 => 135 case 147 => 137 case 148 => 138 case 149 => 139 case 150 => 140 case 151 => 141
    case 152 => 143 case 153 => 147 case 154 => 149 case 155 => 150 case 156 => 151 case 157 => 152
    case 158 => 155 case 159 => 157 case 160 => 158 case 161 => 165 case 162 => 166 case 163 => 168
    case 164 => 174 case 165 => 175 case 166 => 180 case 167 => 182 case 168 => 183 case 169 => 188
    case 170 => 191 case 171 => 197 case 172 => 231 case 173 => 239 case 174 => 9 case 175 => 142
    case 176 => 144 case 177 => 145 case 178 => 148 case 179 => 159 case 180 => 171 case 181 => 206
    case 182 => 215 case 183 => 225 case 184 => 236 case 185 => 237 case 186 => 199 case 187 => 207
    case 188 => 234 case 189 => 235 case 190 => 192 case _ => 193
  }

  function Sorted192(n: nat): nat {
    match n
    case 192 => 200 case 193 => 201 case 194 => 202 case 195 => 205 case 196 => 210 case 197 => 213
    case 198 => 218 case 199 => 219 case 200 => 238 case 201 => 240 case 202 => 242 case 203 => 243
    case 204 => 255 case 205 => 203 case 206 => 204 case 207 => 211 case 208 => 212 case 209 => 214
    case 210 => 221 case 211 => 222 case 212 => 223 case 213 => 241 case 214 => 244 case 215 => 245
    case 216 => 246 case 217 => 247 case 218 => 248 case 219 => 250 case 220 => 251 case 221 => 252
    case 222 => 253 case 223 => 254 case 224 => 2 case 225 => 3 case 226 => 4 case 227 => 5 case 228 => 6
    case 229 => 7 case 230 => 8 case 231 => 11 case 232 => 12 case 233 => 14 case 234 => 15 case 235 => 16
    case 236 => 17 case 237 => 18 case 238 => 19 case 239 => 20 case 240 => 21 case 241 => 23 case 242 => 24
    case 243 => 25 case 244 => 26 case 245 => 27 case 246 => 28 case 247 => 29 case 248 => 30 case 249 => 31
    case 250 => 127 case 251 => 220 case 252 => 249 case 253 => 10 case 254 => 13 case 255 => 22 case _ => 256
  }

  /** The place of symbol `s` in that order. */
  function Place(s: nat): nat {
    if s < 64 then Place0(s) else if s < 128 then Place64(s)
    else if s < 192 then Place128(s) else Place192(s)
  }

  function Place0(s: nat): nat {
    match s
    case 0 => 84 case 1 => 145 case 2 => 224 case 3 => 225 case 4 => 226 case 5 => 227 case 6 => 228
    case 7 => 229 case 8 => 230 case 9 => 174 case 10 => 253 case 11 => 231 case 12 => 232 case 13 => 254
    case 14 => 233 case 15 => 234 case 16 => 235 case 17 => 236 case 18 => 237 case 19 => 238 case 20 => 239
    case 21 => 240 case 22 => 255 case 23 => 241 case 24 => 242 case 25 => 243 case 26 => 244 case 27 => 245
    case 28 => 246 case 29 => 247 case 30 => 248 case 31 => 249 case 32 => 10 case 33 => 74 case 34 => 75
    case 35 => 82 case 36 => 85 case 37 => 11 case 38 => 68 case 39 => 79 case 40 => 76 case 41 => 77
    case 42 => 69 case 43 => 80 case 44 => 70 case 45 => 12 case 46 => 13 case 47 => 14 case 48 => 0
    case 49 => 1 case 50 => 2 case 51 => 15 case 52 => 16 case 53 => 17 case 54 => 18 case 55 => 19
    case 56 => 20 case 57 => 21 case 58 => 36 case 59 => 71 case 60 => 92 case 61 => 22 case 62 => 83
    case _ => 78
  }

  function Place64(s: nat): nat {
    match s
    case 64 => 86 case 65 => 23 case 66 => 37 case 67 => 38 case 68 => 39 case 69 => 40 case 70 => 41
    case 71 => 42 case 72 => 43 case 73 => 44 case 74 => 45 case 75 => 46 case 76 => 47 case 77 => 48
    case 78 => 49 case 79 => 50 case 80 => 51 case 81 => 52 case 82 => 53 case 83 => 54 case 84 => 55
    case 85 => 56 case 86 => 57 case 87 => 58 case 88 => 72 case 89 => 59 case 90 => 73 case 91 => 87
    case 92 => 95 case 93 => 88 case 94 => 90 case 95 => 24 case 96 => 93 case 97 => 3 case 98 => 25
    case 99 => 4 case 100 => 26 case 101 => 5 case 102 => 27 case 103 => 28 case 104 => 29 case 105 => 6
    case 106 => 60 case 107 => 61 case 108 => 30 case 109 => 31 case 110 => 32 case 111 => 7 case 112 => 33
    case 113 => 62 case 114 => 34 case 115 => 8 case 116 => 9 case 117 => 35 case 118 => 63 case 119 => 64
    case 120 => 65 case 121 => 66 case 122 => 67 case 123 => 94 case 124 => 81 case 125 => 91 case 126 => 89
    case _ => 250
  }

  function Place128(s: nat): nat {
    match s
    case 128 => 98 case 129 => 119 case 130 => 99 case 131 => 100 case 132 => 120 case 133 => 121
    case 134 => 122 case 135 => 146 case 136 => 123 case 137 => 147 case 138 => 148 case 139 => 149
    case 140 => 150 case 141 => 151 case 142 => 175 case 143 => 152 case 144 => 176 case 145 => 177
    case 146 => 124 case 147 => 153 case 148 => 178 case 149 => 154 case 150 => 155 case 151 => 156
    case 152 => 157 case 153 => 106 case 154 => 125 case 155 => 158 case 156 => 126 case 157 => 159
    case 158 => 160 case 159 => 179 case 160 => 127 case 161 => 107 case 162 => 101 case 163 => 128
    case 164 => 129 case 165 => 161 case 166 => 162 case 167 => 108 case 168 => 163 case 169 => 130
    case 170 => 131 case 171 => 180 case 172 => 109 case 173 => 132 case 174 => 164 case 175 => 165
    case 176 => 110 case 177 => 111 case 178 => 133 case 179 => 112 case 180 => 166 case 181 => 134
    case 182 => 167 case 183 => 168 case 184 => 102 case 185 => 135 case 186 => 136 case 187 => 137
    case 188 => 169 case 189 => 138 case 190 => 139 case _ => 170
  }

  function Place192(s: nat): nat {
    match s
    case 192 => 190 case 193 => 191 case 194 => 103 case 195 => 96 case 196 => 140 case 197 => 171
    case 198 => 141 case 199 => 186 case 200 => 192 case 201 => 193 case 202 => 194 case 203 => 205
    case 204 => 206 case 205 => 195 case 206 => 181 case 207 => 187 case 208 => 97 case 209 => 113
    case 210 => 196 case 211 => 207 case 212 => 208 case 213 => 197 case 214 => 209 case 215 => 182
    case 216 => 114 case 217 => 115 case 218 => 198 case 219 => 199 case 220 => 251 case 221 => 210
    case 222 => 211 case 223 => 212 case 224 => 104 case 225 => 183 case 226 => 105 case 227 => 116
    case 228 => 142 case 229 => 117 case 230 => 118 case 231 => 172 case 232 => 143 case 233 => 144
    case 234 => 188 case 235 => 189 case 236 => 184 case 237 => 185 case 238 => 200 case 239 => 173
    case 240 => 201 case 241 => 213 case 242 => 202 case 243 => 203 case 244 => 214 case 245 => 215
    case 246 => 216 case 247 => 217 case 248 => 218 case 249 => 252 case 250 => 219 case 251 => 220
    case 252 => 221 case 253 => 222 case 254 => 223 case 255 => 204 case _ => 256
  }

  /** Where the symbols of length `l` begin in that order. */
  function Offset(l: nat): nat {
    match l
    case 1 => 0 case 2 => 0 case 3 => 0 case 4 => 0 case 5 => 0 case 6 => 10 case 7 => 36 case 8 => 68
    case 9 => 74 case 10 => 74 case 11 => 79 case 12 => 82 case 13 => 84 case 14 => 90 case 15 => 92
    case 16 => 95 case 17 => 95 case 18 => 95 case 19 => 95 case 20 => 98 case 21 => 106 case 22 => 119
    case 23 => 145 case 24 => 174 case 25 => 186 case 26 => 190 case 27 => 205 case 28 => 224 case 29 => 253
    case 30 => 253 case _ => 257
  }

  /** The first code word of `l` bits. */
  function First(l: nat): nat {
    match l
    case 1 => 0x0 case 2 => 0x0 case 3 => 0x0 case 4 => 0x0 case 5 => 0x0 case 6 => 0x14 case 7 => 0x5c
    case 8 => 0xf8 case 9 => 0x1fc case 10 => 0x3f8 case 11 => 0x7fa case 12 => 0xffa case 13 => 0x1ff8
    case 14 => 0x3ffc case 15 => 0x7ffc case 16 => 0xfffe case 17 => 0x1fffc case 18 => 0x3fff8
    case 19 => 0x7fff0 case 20 => 0xfffe6 case 21 => 0x1fffdc case 22 => 0x3fffd2 case 23 => 0x7fffd8
    case 24 => 0xffffea case 25 => 0x1ffffec case 26 => 0x3ffffe0 case 27 => 0x7ffffde case 28 => 0xfffffe2
    case 29 => 0x1ffffffe case _ => 0x3ffffffc
  }

  function Count(l: nat): int {
    Offset(l + 1) - Offset(l)
  }

  /** The code word of `s` is the one its place among the symbols of its length gives it. */
  predicate Placed(s: nat) {
    && 1 <= Length(s) <= 30 && First(Length(s)) <= CodeOf(s) < First(Length(s)) + Count(Length(s))
    && Place(s) == Offset(Length(s)) + (CodeOf(s) - First(Length(s)))
  }

  predicate Found(s: nat) {
    Sorted(Place(s)) == s
  }

  /** The length of the code words at place `n`. */
  function LengthAt(n: nat): nat {
    if n < 10 then 5 else if n < 36 then 6 else if n < 68 then 7 else if n < 74 then 8 else
    if n < 79 then 10 else if n < 82 then 11 else if n < 84 then 12 else if n < 90 then 13 else
    if n < 92 then 14 else if n < 95 then 15 else if n < 98 then 19 else if n < 106 then 20 else
    if n < 119 then 21 else if n < 145 then 22 else if n < 174 then 23 else if n < 186 then 24 else
    if n < 190 then 25 else if n < 205 then 26 else if n < 224 then 27 else if n < 253 then 28 else 30
  }

  /** The next symbol is larger or has longer code words. */
  predicate Ascending(n: nat) {
    LengthAt(n) < LengthAt(n + 1) || Sorted(n) < Sorted(n + 1)
  }

  // ---------- The table, line by line ----------

  lemma Placed0(s: nat) requires 0 <= s < 16 ensures Placed(s) {}
  lemma Placed16(s: nat) requires 16 <= s < 32 ensures Placed(s) {}
  lemma Placed32(s: nat) requires 32 <= s < 48 ensures Placed(s) {}
  lemma Placed48(s: nat) requires 48 <= s < 56 ensures Placed(s) {}
  lemma Placed56(s: nat) requires 56 <= s < 64 ensures Placed(s) {}
  lemma Placed64(s: nat) requires 64 <= s < 80 ensures Placed(s) {}
  lemma Placed80(s: nat) requires 80 <= s < 96 ensures Placed(s) {}
  lemma Placed96(s: nat) requires 96 <= s < 112 ensures Placed(s) {}
  lemma Placed112(s: nat) requires 112 <= s < 128 ensures Placed(s) {}
  lemma Placed128(s: nat) requires 128 <= s < 144 ensures Placed(s) {}
  lemma Placed144(s: nat) requires 144 <= s < 160 ensures Placed(s) {}
  lemma Placed160(s: nat) requires 160 <= s < 168 ensures Placed(s) {}
  lemma Placed168(s: nat) requires 168 <= s < 176 ensures Placed(s) {}
  lemma Placed176(s: nat) requires 176 <= s < 192 ensures Placed(s) {}
  lemma Placed192(s: nat) requires 192 <= s < 200 ensures Placed(s) {}
  lemma Placed200(s: nat) requires 200 <= s < 208 ensures Placed(s) {}
  lemma Placed208(s: nat) requires 208 <= s < 216 ensures Placed(s) {}
  lemma Placed216(s: nat) requires 216 <= s < 224 ensures Placed(s) {}
  lemma Placed224(s: nat) requires 224 <= s < 228 ensures Placed(s) {}
  lemma Placed228(s: nat) requires 228 <= s < 232 ensures Placed(s) {}
  lemma Placed232(s: nat) requires 232 <= s < 236 ensures Placed(s) {}
  lemma Placed236(s: nat) requires 236 <= s < 240 ensures Placed(s) {}
  lemma Placed240(s: nat) requires 240 <= s < 244 ensures Placed(s) {}
  lemma Placed244(s: nat) requires 244 <= s < 248 ensures Placed(s) {}
  lemma Placed248(s: nat) requires 248 <= s < 252 ensures Placed(s) {}
  lemma Placed252(s: nat) requires 252 <= s < 256 ensures Placed(s) {}
  lemma Placed256(s: nat) requires 256 <= s < 257 ensures Placed(s) {}

  lemma Found0(s: nat) requires 0 <= s < 16 ensures Found(s) {}
  lemma Found16(s: nat) requires 16 <= s < 24 ensures Found(s) {}
  lemma Found24(s: nat) requires 24 <= s < 32 ensures Found(s) {}
  lemma Found32(s: nat) requires 32 <= s < 40 ensures Found(s) {}
  lemma Found40(s: nat) requires 40 <= s < 48 ensures Found(s) {}
  lemma Found48(s: nat) requires 48 <= s < 64 ensures Found(s) {}
  lemma Found64(s: nat) requires 64 <= s < 80 ensures Found(s) {}
  lemma Found80(s: nat) requires 80 <= s < 88 ensures Found(s) {}
  lemma Found88(s: nat) requires 88 <= s < 96 ensures Found(s) {}
  lemma Found96(s: nat) requires 96 <= s < 112 ensures Found(s) {}
  lemma Found112(s: nat) requires 112 <= s < 120 ensures Found(s) {}
  lemma Found120(s: nat) requires 120 <= s < 128 ensures Found(s) {}
  lemma Found128(s: nat) requires 128 <= s < 136 ensures Found(s) {}
  lemma Found136(s: nat) requires 136 <= s < 144 ensures Found(s) {}
  lemma Found144(s: nat) requires 144 <= s < 152 ensures Found(s) {}
  lemma Found152(s: nat) requires 152 <= s < 160 ensures Found(s) {}
  lemma Found160(s: nat) requires 160 <= s < 176 ensures Found(s) {}
  lemma Found176(s: nat) requires 176 <= s < 192 ensures Found(s) {}
  lemma Found192(s: nat) requires 192 <= s < 208 ensures Found(s) {}
  lemma Found208(s: nat) requires 208 <= s < 224 ensures Found(s) {}
  lemma Found224(s: nat) requires 224 <= s < 232 ensures Found(s) {}
  lemma Found232(s: nat) requires 232 <= s < 240 ensures Found(s) {}
  lemma Found240(s: nat) requires 240 <= s < 256 ensures Found(s) {}
  lemma Found256(s: nat) requires 256 <= s < 257 ensures Found(s) {}

  lemma Ascending0(n: nat) requires 0 <= n < 16 ensures Ascending(n) {}
  lemma Ascending16(n: nat) requires 16 <= n < 32 ensures Ascending(n) {}
  lemma Ascending32(n: nat) requires 32 <= n < 48 ensures Ascending(n) {}
  lemma Ascending48(n: nat) requires 48 <= n < 64 ensures Ascending(n) {}
  lemma Ascending64(n: nat) requires 64 <= n < 80 ensures Ascending(n) {}
  lemma Ascending80(n: nat) requires 80 <= n < 96 ensures Ascending(n) {}
  lemma Ascending96(n: nat) requires 96 <= n < 112 ensures Ascending(n) {}
  lemma Ascending112(n: nat) requires 112 <= n < 128 ensures Ascending(n) {}
  lemma Ascending128(n: nat) requires 128 <= n < 144 ensures Ascending(n) {}
  lemma Ascending144(n: nat) requires 144 <= n < 160 ensures Ascending(n) {}
  lemma Ascending160(n: nat) requires 160 <= n < 176 ensures Ascending(n) {}
  lemma Ascending176(n: nat) requires 176 <= n < 192 ensures Ascending(n) {}
  lemma Ascending192(n: nat) requires 192 <= n < 208 ensures Ascending(n) {}
  lemma Ascending208(n: nat) requires 208 <= n < 224 ensures Ascending(n) {}
  lemma Ascending224(n: nat) requires 224 <= n < 240 ensures Ascending(n) {}
  lemma Ascending240(n: nat) requires 240 <= n < 256 ensures Ascending(n) {}

  lemma AllPlaced(s: nat)
    requires s < SYMBOLS
    ensures Placed(s)
  {
    hide Placed;
    if s < 16 { Placed0(s); } else if s < 32 { Placed16(s); } else if s < 48 { Placed32(s); } else
    if s < 56 { Placed48(s); } else if s < 64 { Placed56(s); } else if s < 80 { Placed64(s); } else
    if s < 96 { Placed80(s); } else if s < 112 { Placed96(s); } else if s < 128 { Placed112(s); } else
    if s < 144 { Placed128(s); } else if s < 160 { Placed144(s); } else if s < 168 { Placed160(s); } else
    if s < 176 { Placed168(s); } else if s < 192 { Placed176(s); } else if s < 200 { Placed192(s); } else
    if s < 208 { Placed200(s); } else if s < 216 { Placed208(s); } else if s < 224 { Placed216(s); } else
    if s < 228 { Placed224(s); } else if s < 232 { Placed228(s); } else if s < 236 { Placed232(s); } else
    if s < 240 { Placed236(s); } else if s < 244 { Placed240(s); } else if s < 248 { Placed244(s); } else
    if s < 252 { Placed248(s); } else if s < 256 { Placed252(s); } else { Placed256(s); }
  }

  lemma AllFound(s: nat)
    requires s < SYMBOLS
    ensures Found(s)
  {
    hide Found;
    if s < 16 { Found0(s); } else if s < 24 { Found16(s); } else if s < 32 { Found24(s); } else
    if s < 40 { Found32(s); } else if s < 48 { Found40(s); } else if s < 64 { Found48(s); } else
    if s < 80 { Found64(s); } else if s < 88 { Found80(s); } else if s < 96 { Found88(s); } else
    if s < 112 { Found96(s); } else if s < 120 { Found112(s); } else if s < 128 { Found120(s); } else
    if s < 136 { Found128(s); } else if s < 144 { Found136(s); } else if s < 152 { Found144(s); } else
    if s < 160 { Found152(s); } else if s < 176 { Found160(s); } else if s < 192 { Found176(s); } else
    if s < 208 { Found192(s); } else if s < 224 { Found208(s); } else if s < 232 { Found224(s); } else
    if s < 240 { Found232(s); } else if s < 256 { Found240(s); } else { Found256(s); }
  }

  lemma AllAscending(n: nat)
    requires n < EOS
    ensures Ascending(n)
  {
    hide Ascending;
    if n < 16 { Ascending0(n); } else if n < 32 { Ascending16(n); } else if n < 48 { Ascending32(n); } else
    if n < 64 { Ascending48(n); } else if n < 80 { Ascending64(n); } else if n < 96 { Ascending80(n); } else
    if n < 112 { Ascending96(n); } else if n < 128 { Ascending112(n); } else if n < 144 { Ascending128(n); } else
    if n < 160 { Ascending144(n); } else if n < 176 { Ascending160(n); } else if n < 192 { Ascending176(n); } else
    if n < 208 { Ascending192(n); } else if n < 224 { Ascending208(n); } else if n < 240 { Ascending224(n); } else
    { Ascending240(n); }
  }

  lemma FirstStep(l: nat)
    requires 1 <= l < 30
    ensures Count(l) >= 0 && First(l + 1) == 2 * (First(l) + Count(l))
  {
  }

  lemma LengthAtPlace(l: nat, n: nat)
    requires 1 <= l <= 30 && Offset(l) <= n < Offset(l + 1)
    ensures LengthAt(n) == l && n < SYMBOLS
  {
  }

  // ---------- Every place is taken by the symbol that stands there ----------

  lemma PlaceOf(s: nat)
    requires s < SYMBOLS
    ensures 1 <= Length(s) <= 30 && Offset(Length(s)) <= Place(s) < Offset(Length(s) + 1)
    ensures Place(s) == Offset(Length(s)) + (CodeOf(s) - First(Length(s)))
    ensures Place(s) < SYMBOLS && Sorted(Place(s)) == s && LengthAt(Place(s)) == Length(s)
  {
    hide Length, CodeOf, Sorted, First, Offset, LengthAt, Place;
    AllPlaced(s);
    AllFound(s);
    LengthAtPlace(Length(s), Place(s));
  }

  /** The places of the symbols below `m`. */
  ghost function Places(m: nat): set<nat>
    requires m <= SYMBOLS
  {
    set s: nat | s < m :: Place(s)
  }

  lemma {:induction false} PlacesCount(m: nat)
    requires m <= SYMBOLS
    ensures |Places(m)| == m
  {
    hide Place, Length, Sorted, LengthAt, Offset;
    if m > 0 {
      PlacesCount(m - 1);
      forall s | 0 <= s < m - 1 ensures Place(s) != Place(m - 1) {
        PlaceOf(s);
        PlaceOf(m - 1);
      }
      assert Places(m) == Places(m - 1) + {Place(m - 1)};
    }
  }

  ghost function Below(m: nat): (r: set<nat>)
    ensures |r| == m && forall i: nat :: i in r <==> i < m
  {
    if m == 0 then {} else Below(m - 1) + {m - 1}
  }

  /** As many places as symbols: the symbol at a place has the length that belongs there. */
  lemma PlaceTaken(n: nat)
    requires n < SYMBOLS
    ensures Sorted(n) < SYMBOLS && Length(Sorted(n)) == LengthAt(n) && Place(Sorted(n)) == n
  {
    hide Place, Length, Sorted, LengthAt, Offset;
    var all := Below(SYMBOLS);
    PlacesCount(SYMBOLS);
    forall s | 0 <= s < SYMBOLS ensures Place(s) in all {
      PlaceOf(s);
    }
    SameSize(Places(SYMBOLS), all);
    assert n in Places(SYMBOLS);
    var s: nat :| s < SYMBOLS && Place(s) == n;
    PlaceOf(s);
  }

  lemma SameSize(a: set<nat>, b: set<nat>)
    requires a <= b && |a| == |b|
    ensures a == b
  {
    assert b == a + (b - a);
  }

  // ---------- The code is canonical ----------

  lemma {:induction false} RowAscends(l: nat, a: nat, b: nat)
    requires 1 <= l <= 30 && Offset(l) <= a < b < Offset(l + 1)
    ensures Sorted(a) < Sorted(b)
    decreases b - a
  {
    hide Sorted, Offset, LengthAt;
    LengthAtPlace(l, a);
    LengthAtPlace(l, b);
    LengthAtPlace(l, a + 1);
    AllAscending(a);
    if a + 1 < b {
      RowAscends(l, a + 1, b);
    }
  }

  /** The first `r` symbols of row `l` are those below `m`. */
  ghost predicate Splits(l: nat, m: nat, r: nat) {
    r <= Count(l) && forall n :: Offset(l) <= n < Offset(l + 1) ==> (Sorted(n) < m <==> n < Offset(l) + r)
  }

  lemma SplitHere(s: nat, r: nat)
    requires s < SYMBOLS && Splits(Length(s), s, r)
    ensures Place(s) == Offset(Length(s)) + r
  {
    hide Sorted, Offset, LengthAt, Length, Place;
    PlaceOf(s);
    var l := Length(s);
    var b := Offset(l) + r;
    if b < Place(s) {
      RowAscends(l, b, Place(s));
    }
  }

  lemma {:induction false} RankSplits(l: nat, m: nat)
    requires 1 <= l <= 30 && m <= SYMBOLS
    ensures Splits(l, m, Rank(Hpack(), l, m))
  {
    hide Sorted, Offset, LengthAt, Length, CodeOf, Place;
    CountSome(l);
    if m > 0 {
      var s := m - 1;
      RankSplits(l, s);
      PlaceOf(s);
      if Length(s) == l {
        SplitHere(s, Rank(Hpack(), l, s));
      }
      forall n | Offset(l) <= n < Offset(l + 1) && Sorted(n) == s ensures Length(s) == l && Place(s) == n {
        LengthAtPlace(l, n);
        PlaceTaken(n);
      }
    }
  }

  lemma CountSome(l: nat)
    requires 1 <= l <= 30
    ensures Count(l) >= 0
  {
  }

  lemma HpackCanonical()
    requires Sized(Hpack())
    ensures Canonical(Hpack())
  {
    hide Sorted, Offset, LengthAt, Length, CodeOf, First, Rank, Sized, Splits, Place;
    var c := Hpack();
    forall s, t | 0 <= s < SYMBOLS && 0 <= t < SYMBOLS && c.len[s] == c.len[t]
      ensures c.code[s] - Rank(c, c.len[s], s) == c.code[t] - Rank(c, c.len[t], t)
    {
      PlaceOf(s);
      PlaceOf(t);
      RankSplits(Length(s), s);
      SplitHere(s, Rank(c, Length(s), s));
      RankSplits(Length(t), t);
      SplitHere(t, Rank(c, Length(t), t));
    }
  }

  // ---------- The code is prefix-free ----------

  /** The code words of each length leave room for longer ones. */
  lemma {:induction false} RowFits(l: nat)
    requires 1 <= l <= 30
    ensures First(l) + Count(l) <= Pow2(l)
    decreases 30 - l
  {
    hide First, Offset;
    if l == 30 {
      LastRow();
    } else {
      FirstStep(l);
      CountSome(l + 1);
      RowFits(l + 1);
      assert Pow2(l + 1) == 2 * Pow2(l);
    }
  }

  /** The code is complete: its last words are all ones. */
  lemma LastRow()
    ensures First(30) + Count(30) == Pow2(30)
  {
    Pow2Values();
    assert Pow2(16) == 65536 && Pow2(24) == 0x100_0000;
  }

  lemma HpackSized()
    ensures Sized(Hpack())
  {
    hide Sorted, Offset, LengthAt, Length, CodeOf, First, Pow2, Place;
    var c := Hpack();
    forall s | 0 <= s < SYMBOLS ensures 1 <= c.len[s] <= 30 && c.code[s] < Pow2(c.len[s]) {
      PlaceOf(s);
      RowFits(Length(s));
    }
  }

  /** Longer code words begin beyond all shorter ones. */
  lemma {:induction false} LongerBeyond(l: nat, m: nat)
    requires 1 <= l < m <= 30
    ensures (First(l) + Count(l)) * Pow2(m - l) <= First(m)
    decreases m - l
  {
    hide First, Offset, Pow2;
    FirstStep(m - 1);
    if l + 1 < m {
      LongerBeyond(l, m - 1);
      CountSome(m - 1);
      Doubled(First(l) + Count(l), m - 1 - l);
    } else {
      Doubled(First(l) + Count(l), 0);
    }
  }

  lemma Doubled(a: int, k: nat)
    ensures a * Pow2(k + 1) == 2 * (a * Pow2(k)) && a * Pow2(0) == a
  {
    assert Pow2(k + 1) == 2 * Pow2(k);
  }

  lemma {:induction false} ShrAtLeast(v: nat, a: nat, k: nat)
    requires a * Pow2(k) <= v
    ensures a <= Shr(v, k)
  {
    if k > 0 {
      Doubled(a, k - 1);
      ShrAtLeast(v / 2, a, k - 1);
    }
  }

  lemma HpackPrefixFree(s: nat, t: nat)
    requires s < SYMBOLS && t < SYMBOLS && s != t && Sized(Hpack())
    ensures !(Word(Hpack(), s) <= Word(Hpack(), t))
  {
    hide Sorted, Offset, LengthAt, Length, CodeOf, First, ToBits, Shr, Pow2, Place;
    var c := Hpack();
    var l, m := Length(s), Length(t);
    PlaceOf(s);
    PlaceOf(t);
    if Word(c, s) <= Word(c, t) {
      var k := m - l;
      ToBitsSplit(CodeOf(t), l, k);
      assert Word(c, t)[..l] == ToBits(Shr(CodeOf(t), k), l);
      ShrBelow(CodeOf(t), l, k);
      ToBitsInjective(CodeOf(s), Shr(CodeOf(t), k), l);
      if k > 0 {
        LongerBeyond(l, m);
        ShrAtLeast(CodeOf(t), First(l) + Count(l), k);
      } else {
        ShrNone(CodeOf(t));
      }
    }
  }

  lemma ShrNone(v: nat)
    ensures Shr(v, 0) == v
  {
  }

  /** What is proved of every valid code holds of the one in use. */
  lemma HpackValid()
    ensures ValidCode(Hpack())
  {
    hide Sorted, Offset, LengthAt, First, Word, Canonical, Sized, Rank, Length, CodeOf, Pow2;
    HpackSized();
    HpackCanonical();
    HpackEos();
    var c := Hpack();
    forall s, t | 0 <= s < SYMBOLS && 0 <= t < SYMBOLS && s != t ensures !(Word(c, s) <= Word(c, t)) {
      HpackPrefixFree(s, t);
    }
  }

  lemma HpackEos()
    ensures Length(EOS) == 30 && CodeOf(EOS) == Pow2(30) - 1
  {
    hide Pow2;
    LastRow();
  }

  /** The Huffman form is shorter for some strings and not for others, so both branches are taken. */
  lemma BothBranches()
    ensures ValidCode(Hpack())
    ensures |HuffBytes(Hpack(), [48, 48, 48])| == 2 && |HuffBytes(Hpack(), [0])| == 2
  {
    hide ValidCode, HuffBytes, Encodes, BytesToBits;
    HpackValid();
    BitCounts();
  }

  lemma BitCounts()
    ensures BitCount(Hpack(), [48, 48, 48]) == 15 && BitCount(Hpack(), [0]) == 13
  {
    hide Length, CodeOf;
    ShortWords();
    BitCountOne(0, []);
    BitCountOne(48, []);
    BitCountOne(48, [48]);
    BitCountOne(48, [48, 48]);
    assert [] + [0] == [0] && [] + [48] == [48] && [48] + [48] == [48, 48] && [48, 48] + [48] == [48, 48, 48];
  }

  lemma ShortWords()
    ensures Length(48) == 5 && Length(0) == 13
  {
  }

  lemma BitCountOne(b: Byte, s: seq<Byte>)
    ensures BitCount(Hpack(), s + [b]) == BitCount(Hpack(), s) + Length(b) && BitCount(Hpack(), []) == 0
  {
    hide Length, CodeOf;
    assert (s + [b])[..|s|] == s;
  }
}
