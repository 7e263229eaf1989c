/** The shipped table of reversed indices. */
module ReversalTable {
  import opened BitReversal

  /** brv8[i]. */
  function Entry(i: nat): nat
    requires i < SIZE
  {
    if i < 128 then
     if i < 64 then
      if i < 32 then
       if i < 16 then
        if i < 8 then
         if i < 4 then if i < 2 then if i < 1 then 0 else 128 else if i < 3 then 64 else 192 else if i < 6 then if i < 5 then 32 else 160 else if i < 7 then 96 else 224
        else
         if i < 12 then if i < 10 then if i < 9 then 16 else 144 else if i < 11 then 80 else 208 else if i < 14 then if i < 13 then 48 else 176 else if i < 15 then 112 else 240
       else
        if i < 24 then
         if i < 20 then if i < 18 then if i < 17 then 8 else 136 else if i < 19 then 72 else 200 else if i < 22 then if i < 21 then 40 else 168 else if i < 23 then 104 else 232
        else
         if i < 28 then if i < 26 then if i < 25 then 24 else 152 else if i < 27 then 88 else 216 else if i < 30 then if i < 29 then 56 else 184 else if i < 31 then 120 else 248
      else
       if i < 48 then
        if i < 40 then
         if i < 36 then if i < 34 then if i < 33 then 4 else 132 else if i < 35 then 68 else 196 else if i < 38 then if i < 37 then 36 else 164 else if i < 39 then 100 else 228
        else
         if i < 44 then if i < 42 then if i < 41 then 20 else 148 else if i < 43 then 84 else 212 else if i < 46 then if i < 45 then 52 else 180 else if i < 47 then 116 else 244
       else
        if i < 56 then
         if i < 52 then if i < 50 then if i < 49 then 12 else 140 else if i < 51 then 76 else 204 else if i < 54 then if i < 53 then 44 else 172 else if i < 55 then 108 else 236
        else
         if i < 60 then if i < 58 then if i < 57 then 28 else 156 else if i < 59 then 92 else 220 else if i < 62 then if i < 61 then 60 else 188 else if i < 63 then 124 else 252
     else
      if i < 96 then
       if i < 80 then
        if i < 72 then
         if i < 68 then if i < 66 then if i < 65 then 2 else 130 else if i < 67 then 66 else 194 else if i < 70 then if i < 69 then 34 else 162 else if i < 71 then 98 else 226
        else
         if i < 76 then if i < 74 then if i < 73 then 18 else 146 else if i < 75 then 82 else 210 else if i < 78 then if i < 77 then 50 else 178 else if i < 79 then 114 else 242
       else
        if i < 88 then
         if i < 84 then if i < 82 then if i < 81 then 10 else 138 else if i < 83 then 74 else 202 else if i < 86 then if i < 85 then 42 else 170 else if i < 87 then 106 else 234
        else
         if i < 92 then if i < 90 then if i < 89 then 26 else 154 else if i < 91 then 90 else 218 else if i < 94 then if i < 93 then 58 else 186 else if i < 95 then 122 else 250
      else
       if i < 112 then
        if i < 104 then
         if i < 100 then if i < 98 then if i < 97 then 6 else 134 else if i < 99 then 70 else 198 else if i < 102 then if i < 101 then 38 else 166 else if i < 103 then 102 else 230
        else
         if i < 108 then if i < 106 then if i < 105 then 22 else 150 else if i < 107 then 86 else 214 else if i < 110 then if i < 109 then 54 else 182 else if i < 111 then 118 else 246
       else
        if i < 120 then
         if i < 116 then if i < 114 then if i < 113 then 14 else 142 else if i < 115 then 78 else 206 else if i < 118 then if i < 117 then 46 else 174 else if i < 119 then 110 else 238
        else
         if i < 124 then if i < 122 then if i < 121 then 30 else 158 else if i < 123 then 94 else 222 else if i < 126 then if i < 125 then 62 else 190 else if i < 127 then 126 else 254
    else
     if i < 192 then
      if i < 160 then
       if i < 144 then
        if i < 136 then
         if i < 132 then if i < 130 then if i < 129 then 1 else 129 else if i < 131 then 65 else 193 else if i < 134 then if i < 133 then 33 else 161 else if i < 135 then 97 else 225
        else
         if i < 140 then if i < 138 then if i < 137 then 17 else 145 else if i < 139 then 81 else 209 else if i < 142 then if i < 141 then 49 else 177 else if i < 143 then 113 else 241
       else
        if i < 152 then
         if i < 148 then if i < 146 then if i < 145 then 9 else 137 else if i < 147 then 73 else 201 else if i < 150 then if i < 149 then 41 else 169 else if i < 151 then 105 else 233
        else
         if i < 156 then if i < 154 then if i < 153 then 25 else 153 else if i < 155 then 89 else 217 else if i < 158 then if i < 157 then 57 else 185 else if i < 159 then 121 else 249
      else
       if i < 176 then
        if i < 168 then
         if i < 164 then if i < 162 then if i < 161 then 5 else 133 else if i < 163 then 69 else 197 else if i < 166 then if i < 165 then 37 else 165 else if i < 167 then 101 else 229
        else
         if i < 172 then if i < 170 then if i < 169 then 21 else 149 else if i < 171 then 85 else 213 else if i < 174 then if i < 173 then 53 else 181 else if i < 175 then 117 else 245
       else
        if i < 184 then
         if i < 180 then if i < 178 then if i < 177 then 13 else 141 else if i < 179 then 77 else 205 else if i < 182 then if i < 181 then 45 else 173 else if i < 183 then 109 else 237
        else
         if i < 188 then if i < 186 then if i < 185 then 29 else 157 else if i < 187 then 93 else 221 else if i < 190 then if i < 189 then 61 else 189 else if i < 191 then 125 else 253
     else
      if i < 224 then
       if i < 208 then
        if i < 200 then
         if i < 196 then if i < 194 then if i < 193 then 3 else 131 else if i < 195 then 67 else 195 else if i < 198 then if i < 197 then 35 else 163 else if i < 199 then 99 else 227
        else
         if i < 204 then if i < 202 then if i < 201 then 19 else 147 else if i < 203 then 83 else 211 else if i < 206 then if i < 205 then 51 else 179 else if i < 207 then 115 else 243
       else
        if i < 216 then
         if i < 212 then if i < 210 then if i < 209 then 11 else 139 else if i < 211 then 75 else 203 else if i < 214 then if i < 213 then 43 else 171 else if i < 215 then 107 else 235
        else
         if i < 220 then if i < 218 then if i < 217 then 27 else 155 else if i < 219 then 91 else 219 else if i < 222 then if i < 221 then 59 else 187 else if i < 223 then 123 else 251
      else
       if i < 240 then
        if i < 232 then
         if i < 228 then if i < 226 then if i < 225 then 7 else 135 else if i < 227 then 71 else 199 else if i < 230 then if i < 229 then 39 else 167 else if i < 231 then 103 else 231
        else
         if i < 236 then if i < 234 then if i < 233 then 23 else 151 else if i < 235 then 87 else 215 else if i < 238 then if i < 237 then 55 else 183 else if i < 239 then 119 else 247
       else
        if i < 248 then
         if i < 244 then if i < 242 then if i < 241 then 15 else 143 else if i < 243 then 79 else 207 else if i < 246 then if i < 245 then 47 else 175 else if i < 247 then 111 else 239
        else
         if i < 252 then if i < 250 then if i < 249 then 31 else 159 else if i < 251 then 95 else 223 else if i < 254 then if i < 253 then 63 else 191 else if i < 255 then 127 else 255
  }

  function Top(i: nat): (b: nat)
    requires 1 <= i < SIZE
    ensures PowerOfTwo(b) && b <= i < 2 * b
  {
    if i < 2 then 1 else if i < 4 then 2 else if i < 8 then 4 else if i < 16 then 8 else if i < 32 then 16
    else if i < 64 then 32 else if i < 128 then 64 else 128
  }

  /** An entry is the sum of the entries for its top bit and for the rest. */
  predicate Sum(i: nat)
    requires 1 <= i < SIZE
  {
    Entry(i) == Entry(Top(i)) + Entry(i - Top(i))
  }

  lemma Sums1(i: nat)
    requires 1 <= i < 32
    ensures Sum(i)
  {
  }

  lemma Sums32(i: nat)
    requires 32 <= i < 64
    ensures Sum(i)
  {
  }

  lemma Sums64(i: nat)
    requires 64 <= i < 96
    ensures Sum(i)
  {
  }

  lemma Sums96(i: nat)
    requires 96 <= i < 128
    ensures Sum(i)
  {
  }

  lemma Sums128(i: nat)
    requires 128 <= i < 160
    ensures Sum(i)
  {
  }

  lemma Sums160(i: nat)
    requires 160 <= i < 192
    ensures Sum(i)
  {
  }

  lemma Sums192(i: nat)
    requires 192 <= i < 224
    ensures Sum(i)
  {
  }

  lemma Sums224(i: nat)
    requires 224 <= i < 256
    ensures Sum(i)
  {
  }

  lemma Sums(i: nat)
    requires 1 <= i < SIZE
    ensures Sum(i)
  {
    hide Sum;
    if i < 32 {
      Sums1(i);
    } else if i < 64 {
      Sums32(i);
    } else if i < 96 {
      Sums64(i);
    } else if i < 128 {
      Sums96(i);
    } else if i < 160 {
      Sums128(i);
    } else if i < 192 {
      Sums160(i);
    } else if i < 224 {
      Sums192(i);
    } else {
      Sums224(i);
    }
  }

  lemma Powers(b: nat)
    requires PowerOfTwo(b)
    ensures Entry(b) == Brv8(b)
  {
    hide Brv8;
    Brv8Power(b);
  }

  /** Every entry is its index with the eight bits reversed. */
  lemma {:induction false} TableReverses(i: nat)
    requires i < SIZE
    ensures Entry(i) == Brv8(i)
  {
    hide Entry, Brv8;
    if i == 0 {
      First();
    } else {
      var b := Top(i);
      Sums(i);
      Powers(b);
      TableReverses(i - b);
      Brv8Top(b, i - b);
    }
  }

  lemma First()
    ensures Entry(0) == Brv8(0) == 0
  {
  }
}
