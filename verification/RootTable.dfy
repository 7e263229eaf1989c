/** The shipped table of roots of unity, and that every entry is the exact root rounded to 16 fractional bits. */
module RootTable {

  /** A complex number of integers. */
  datatype Complex = Complex(re: int, im: int) {
    predicate Within(bound: int) {
      -bound <= re <= bound && -bound <= im <= bound
    }
  }

  const SCALE := 0x1_0000_0000

  /** roots[k]. */
  function Root(k: nat): Complex
    requires k < 256
  {
    if k < 128 then
     if k < 64 then
      if k < 32 then
       if k < 16 then
        if k < 8 then
         if k < 4 then
          if k < 2 then
           if k < 1 then Complex(65536, 0) else Complex(65531, -804)
          else
           if k < 3 then Complex(65516, -1608) else Complex(65492, -2412)
         else
          if k < 6 then
           if k < 5 then Complex(65457, -3216) else Complex(65413, -4019)
          else
           if k < 7 then Complex(65358, -4821) else Complex(65294, -5623)
        else
         if k < 12 then
          if k < 10 then
           if k < 9 then Complex(65220, -6424) else Complex(65137, -7224)
          else
           if k < 11 then Complex(65043, -8022) else Complex(64940, -8820)
         else
          if k < 14 then
           if k < 13 then Complex(64827, -9616) else Complex(64704, -10411)
          else
           if k < 15 then Complex(64571, -11204) else Complex(64429, -11996)
       else
        if k < 24 then
         if k < 20 then
          if k < 18 then
           if k < 17 then Complex(64277, -12785) else Complex(64115, -13573)
          else
           if k < 19 then Complex(63944, -14359) else Complex(63763, -15143)
         else
          if k < 22 then
           if k < 21 then Complex(63572, -15924) else Complex(63372, -16703)
          else
           if k < 23 then Complex(63162, -17479) else Complex(62943, -18253)
        else
         if k < 28 then
          if k < 26 then
           if k < 25 then Complex(62714, -19024) else Complex(62476, -19792)
          else
           if k < 27 then Complex(62228, -20557) else Complex(61971, -21320)
         else
          if k < 30 then
           if k < 29 then Complex(61705, -22078) else Complex(61429, -22834)
          else
           if k < 31 then Complex(61145, -23586) else Complex(60851, -24335)
      else
       if k < 48 then
        if k < 40 then
         if k < 36 then
          if k < 34 then
           if k < 33 then Complex(60547, -25080) else Complex(60235, -25821)
          else
           if k < 35 then Complex(59914, -26558) else Complex(59583, -27291)
         else
          if k < 38 then
           if k < 37 then Complex(59244, -28020) else Complex(58896, -28745)
          else
           if k < 39 then Complex(58538, -29466) else Complex(58172, -30182)
        else
         if k < 44 then
          if k < 42 then
           if k < 41 then Complex(57798, -30893) else Complex(57414, -31600)
          else
           if k < 43 then Complex(57022, -32303) else Complex(56621, -33000)
         else
          if k < 46 then
           if k < 45 then Complex(56212, -33692) else Complex(55794, -34380)
          else
           if k < 47 then Complex(55368, -35062) else Complex(54934, -35738)
       else
        if k < 56 then
         if k < 52 then
          if k < 50 then
           if k < 49 then Complex(54491, -36410) else Complex(54040, -37076)
          else
           if k < 51 then Complex(53581, -37736) else Complex(53114, -38391)
         else
          if k < 54 then
           if k < 53 then Complex(52639, -39040) else Complex(52156, -39683)
          else
           if k < 55 then Complex(51665, -40320) else Complex(51166, -40951)
        else
         if k < 60 then
          if k < 58 then
           if k < 57 then Complex(50660, -41576) else Complex(50146, -42194)
          else
           if k < 59 then Complex(49624, -42806) else Complex(49095, -43412)
         else
          if k < 62 then
           if k < 61 then Complex(48559, -44011) else Complex(48015, -44604)
          else
           if k < 63 then Complex(47464, -45190) else Complex(46906, -45769)
     else
      if k < 96 then
       if k < 80 then
        if k < 72 then
         if k < 68 then
          if k < 66 then
           if k < 65 then Complex(46341, -46341) else Complex(45769, -46906)
          else
           if k < 67 then Complex(45190, -47464) else Complex(44604, -48015)
         else
          if k < 70 then
           if k < 69 then Complex(44011, -48559) else Complex(43412, -49095)
          else
           if k < 71 then Complex(42806, -49624) else Complex(42194, -50146)
        else
         if k < 76 then
          if k < 74 then
           if k < 73 then Complex(41576, -50660) else Complex(40951, -51166)
          else
           if k < 75 then Complex(40320, -51665) else Complex(39683, -52156)
         else
          if k < 78 then
           if k < 77 then Complex(39040, -52639) else Complex(38391, -53114)
          else
           if k < 79 then Complex(37736, -53581) else Complex(37076, -54040)
       else
        if k < 88 then
         if k < 84 then
          if k < 82 then
           if k < 81 then Complex(36410, -54491) else Complex(35738, -54934)
          else
           if k < 83 then Complex(35062, -55368) else Complex(34380, -55794)
         else
          if k < 86 then
           if k < 85 then Complex(33692, -56212) else Complex(33000, -56621)
          else
           if k < 87 then Complex(32303, -57022) else Complex(31600, -57414)
        else
         if k < 92 then
          if k < 90 then
           if k < 89 then Complex(30893, -57798) else Complex(30182, -58172)
          else
           if k < 91 then Complex(29466, -58538) else Complex(28745, -58896)
         else
          if k < 94 then
           if k < 93 then Complex(28020, -59244) else Complex(27291, -59583)
          else
           if k < 95 then Complex(26558, -59914) else Complex(25821, -60235)
      else
       if k < 112 then
        if k < 104 then
         if k < 100 then
          if k < 98 then
           if k < 97 then Complex(25080, -60547) else Complex(24335, -60851)
          else
           if k < 99 then Complex(23586, -61145) else Complex(22834, -61429)
         else
          if k < 102 then
           if k < 101 then Complex(22078, -61705) else Complex(21320, -61971)
          else
           if k < 103 then Complex(20557, -62228) else Complex(19792, -62476)
        else
         if k < 108 then
          if k < 106 then
           if k < 105 then Complex(19024, -62714) else Complex(18253, -62943)
          else
           if k < 107 then Complex(17479, -63162) else Complex(16703, -63372)
         else
          if k < 110 then
           if k < 109 then Complex(15924, -63572) else Complex(15143, -63763)
          else
           if k < 111 then Complex(14359, -63944) else Complex(13573, -64115)
       else
        if k < 120 then
         if k < 116 then
          if k < 114 then
           if k < 113 then Complex(12785, -64277) else Complex(11996, -64429)
          else
           if k < 115 then Complex(11204, -64571) else Complex(10411, -64704)
         else
          if k < 118 then
           if k < 117 then Complex(9616, -64827) else Complex(8820, -64940)
          else
           if k < 119 then Complex(8022, -65043) else Complex(7224, -65137)
        else
         if k < 124 then
          if k < 122 then
           if k < 121 then Complex(6424, -65220) else Complex(5623, -65294)
          else
           if k < 123 then Complex(4821, -65358) else Complex(4019, -65413)
         else
          if k < 126 then
           if k < 125 then Complex(3216, -65457) else Complex(2412, -65492)
          else
           if k < 127 then Complex(1608, -65516) else Complex(804, -65531)
    else
     if k < 192 then
      if k < 160 then
       if k < 144 then
        if k < 136 then
         if k < 132 then
          if k < 130 then
           if k < 129 then Complex(0, -65536) else Complex(-804, -65531)
          else
           if k < 131 then Complex(-1608, -65516) else Complex(-2412, -65492)
         else
          if k < 134 then
           if k < 133 then Complex(-3216, -65457) else Complex(-4019, -65413)
          else
           if k < 135 then Complex(-4821, -65358) else Complex(-5623, -65294)
        else
         if k < 140 then
          if k < 138 then
           if k < 137 then Complex(-6424, -65220) else Complex(-7224, -65137)
          else
           if k < 139 then Complex(-8022, -65043) else Complex(-8820, -64940)
         else
          if k < 142 then
           if k < 141 then Complex(-9616, -64827) else Complex(-10411, -64704)
          else
           if k < 143 then Complex(-11204, -64571) else Complex(-11996, -64429)
       else
        if k < 152 then
         if k < 148 then
          if k < 146 then
           if k < 145 then Complex(-12785, -64277) else Complex(-13573, -64115)
          else
           if k < 147 then Complex(-14359, -63944) else Complex(-15143, -63763)
         else
          if k < 150 then
           if k < 149 then Complex(-15924, -63572) else Complex(-16703, -63372)
          else
           if k < 151 then Complex(-17479, -63162) else Complex(-18253, -62943)
        else
         if k < 156 then
          if k < 154 then
           if k < 153 then Complex(-19024, -62714) else Complex(-19792, -62476)
          else
           if k < 155 then Complex(-20557, -62228) else Complex(-21320, -61971)
         else
          if k < 158 then
           if k < 157 then Complex(-22078, -61705) else Complex(-22834, -61429)
          else
           if k < 159 then Complex(-23586, -61145) else Complex(-24335, -60851)
      else
       if k < 176 then
        if k < 168 then
         if k < 164 then
          if k < 162 then
           if k < 161 then Complex(-25080, -60547) else Complex(-25821, -60235)
          else
           if k < 163 then Complex(-26558, -59914) else Complex(-27291, -59583)
         else
          if k < 166 then
           if k < 165 then Complex(-28020, -59244) else Complex(-28745, -58896)
          else
           if k < 167 then Complex(-29466, -58538) else Complex(-30182, -58172)
        else
         if k < 172 then
          if k < 170 then
           if k < 169 then Complex(-30893, -57798) else Complex(-31600, -57414)
          else
           if k < 171 then Complex(-32303, -57022) else Complex(-33000, -56621)
         else
          if k < 174 then
           if k < 173 then Complex(-33692, -56212) else Complex(-34380, -55794)
          else
           if k < 175 then Complex(-35062, -55368) else Complex(-35738, -54934)
       else
        if k < 184 then
         if k < 180 then
          if k < 178 then
           if k < 177 then Complex(-36410, -54491) else Complex(-37076, -54040)
          else
           if k < 179 then Complex(-37736, -53581) else Complex(-38391, -53114)
         else
          if k < 182 then
           if k < 181 then Complex(-39040, -52639) else Complex(-39683, -52156)
          else
           if k < 183 then Complex(-40320, -51665) else Complex(-40951, -51166)
        else
         if k < 188 then
          if k < 186 then
           if k < 185 then Complex(-41576, -50660) else Complex(-42194, -50146)
          else
           if k < 187 then Complex(-42806, -49624) else Complex(-43412, -49095)
         else
          if k < 190 then
           if k < 189 then Complex(-44011, -48559) else Complex(-44604, -48015)
          else
           if k < 191 then Complex(-45190, -47464) else Complex(-45769, -46906)
     else
      if k < 224 then
       if k < 208 then
        if k < 200 then
         if k < 196 then
          if k < 194 then
           if k < 193 then Complex(-46341, -46341) else Complex(-46906, -45769)
          else
           if k < 195 then Complex(-47464, -45190) else Complex(-48015, -44604)
         else
          if k < 198 then
           if k < 197 then Complex(-48559, -44011) else Complex(-49095, -43412)
          else
           if k < 199 then Complex(-49624, -42806) else Complex(-50146, -42194)
        else
         if k < 204 then
          if k < 202 then
           if k < 201 then Complex(-50660, -41576) else Complex(-51166, -40951)
          else
           if k < 203 then Complex(-51665, -40320) else Complex(-52156, -39683)
         else
          if k < 206 then
           if k < 205 then Complex(-52639, -39040) else Complex(-53114, -38391)
          else
           if k < 207 then Complex(-53581, -37736) else Complex(-54040, -37076)
       else
        if k < 216 then
         if k < 212 then
          if k < 210 then
           if k < 209 then Complex(-54491, -36410) else Complex(-54934, -35738)
          else
           if k < 211 then Complex(-55368, -35062) else Complex(-55794, -34380)
         else
          if k < 214 then
           if k < 213 then Complex(-56212, -33692) else Complex(-56621, -33000)
          else
           if k < 215 then Complex(-57022, -32303) else Complex(-57414, -31600)
        else
         if k < 220 then
          if k < 218 then
           if k < 217 then Complex(-57798, -30893) else Complex(-58172, -30182)
          else
           if k < 219 then Complex(-58538, -29466) else Complex(-58896, -28745)
         else
          if k < 222 then
           if k < 221 then Complex(-59244, -28020) else Complex(-59583, -27291)
          else
           if k < 223 then Complex(-59914, -26558) else Complex(-60235, -25821)
      else
       if k < 240 then
        if k < 232 then
         if k < 228 then
          if k < 226 then
           if k < 225 then Complex(-60547, -25080) else Complex(-60851, -24335)
          else
           if k < 227 then Complex(-61145, -23586) else Complex(-61429, -22834)
         else
          if k < 230 then
           if k < 229 then Complex(-61705, -22078) else Complex(-61971, -21320)
          else
           if k < 231 then Complex(-62228, -20557) else Complex(-62476, -19792)
        else
         if k < 236 then
          if k < 234 then
           if k < 233 then Complex(-62714, -19024) else Complex(-62943, -18253)
          else
           if k < 235 then Complex(-63162, -17479) else Complex(-63372, -16703)
         else
          if k < 238 then
           if k < 237 then Complex(-63572, -15924) else Complex(-63763, -15143)
          else
           if k < 239 then Complex(-63944, -14359) else Complex(-64115, -13573)
       else
        if k < 248 then
         if k < 244 then
          if k < 242 then
           if k < 241 then Complex(-64277, -12785) else Complex(-64429, -11996)
          else
           if k < 243 then Complex(-64571, -11204) else Complex(-64704, -10411)
         else
          if k < 246 then
           if k < 245 then Complex(-64827, -9616) else Complex(-64940, -8820)
          else
           if k < 247 then Complex(-65043, -8022) else Complex(-65137, -7224)
        else
         if k < 252 then
          if k < 250 then
           if k < 249 then Complex(-65220, -6424) else Complex(-65294, -5623)
          else
           if k < 251 then Complex(-65358, -4821) else Complex(-65413, -4019)
         else
          if k < 254 then
           if k < 253 then Complex(-65457, -3216) else Complex(-65492, -2412)
          else
           if k < 255 then Complex(-65516, -1608) else Complex(-65531, -804)
  }

  /** The first powers of the root with 32 fractional bits. */
  function Fine(i: nat): Complex
    requires i < 16
  {
    if i < 8 then
     if i < 4 then
      if i < 2 then
       if i < 1 then Complex(4294967296, 0) else Complex(4294643893, -52705856)
      else
       if i < 3 then Complex(4293673732, -105403774) else Complex(4292056960, -158085819)
     else
      if i < 6 then
       if i < 5 then Complex(4289793820, -210744057) else Complex(4286884652, -263370557)
      else
       if i < 7 then Complex(4283329896, -315957395) else Complex(4279130086, -368496651)
    else
     if i < 12 then
      if i < 10 then
       if i < 9 then Complex(4274285855, -420980412) else Complex(4268797931, -473400776)
      else
       if i < 11 then Complex(4262667143, -525749847) else Complex(4255894413, -578019742)
     else
      if i < 14 then
       if i < 13 then Complex(4248480760, -630202589) else Complex(4240427302, -682290530)
      else
       if i < 15 then Complex(4231735252, -734275721) else Complex(4222405917, -786150333)
  }

  /** The powers by multiples of sixteen, likewise. */
  function Coarse(i: nat): Complex
    requires i < 16
  {
    if i < 8 then
     if i < 4 then
      if i < 2 then
       if i < 1 then Complex(4294967296, 0) else Complex(4212440704, -837906553)
      else
       if i < 3 then Complex(3968032378, -1643612827) else Complex(3571134792, -2386155981)
     else
      if i < 6 then
       if i < 5 then Complex(3037000500, -3037000500) else Complex(2386155981, -3571134792)
      else
       if i < 7 then Complex(1643612827, -3968032378) else Complex(837906553, -4212440704)
    else
     if i < 12 then
      if i < 10 then
       if i < 9 then Complex(0, -4294967296) else Complex(-837906553, -4212440704)
      else
       if i < 11 then Complex(-1643612827, -3968032378) else Complex(-2386155981, -3571134792)
     else
      if i < 14 then
       if i < 13 then Complex(-3037000500, -3037000500) else Complex(-3571134792, -2386155981)
      else
       if i < 15 then Complex(-3968032378, -1643612827) else Complex(-4212440704, -837906553)
  }

  function Product(x: Complex, y: Complex): Complex {
    Complex(x.re * y.re - x.im * y.im, x.re * y.im + x.im * y.re)
  }

  /** The difference of x and y times SCALE has absolute value at most 2 * SCALE. */
  predicate Matches(x: Complex, y: Complex) {
    var u, v := x.re - SCALE * y.re, x.im - SCALE * y.im;
    u * u + v * v <= 4 * SCALE * SCALE
  }

  // ---------- computed facts ----------

  function Top(i: nat): (t: nat)
    requires 1 <= i < 16
    ensures 1 <= t <= i
  {
    if i < 2 then 1 else if i < 4 then 2 else if i < 8 then 4 else 8
  }

  predicate FineFact(i: nat)
    requires 1 <= i < 16
  {
    if i == Top(i) then Matches(Product(Fine(i), Fine(i)), if i == 8 then Coarse(1) else Fine(2 * i))
    else Matches(Product(Fine(Top(i)), Fine(i - Top(i))), Fine(i))
  }

  predicate CoarseFact(i: nat)
    requires 1 <= i < 16
  {
    if i == Top(i) then i < 8 ==> Matches(Product(Coarse(i), Coarse(i)), Coarse(2 * i))
    else Matches(Product(Coarse(Top(i)), Coarse(i - Top(i))), Coarse(i))
  }

  lemma FineFacts(i: nat)
    requires 1 <= i < 16
    ensures FineFact(i)
  {
  }

  lemma CoarseFacts(i: nat)
    requires 1 <= i < 16
    ensures CoarseFact(i)
  {
  }

  /** The product of the two precise factors rounds to the table's entry, with room to spare. */
  predicate RoundsTo(product: Complex, entry: Complex) {
    && -0x7ed2_0000_0000 <= product.re - 0x1_0000_0000_0000 * entry.re <= 0x7ed2_0000_0000
    && -0x7ed2_0000_0000 <= product.im - 0x1_0000_0000_0000 * entry.im <= 0x7ed2_0000_0000
  }

  predicate RoundedAt(h: nat, i: nat)
    requires h < 16 && i < 16
  {
    RoundsTo(Product(Coarse(h), Fine(i)), Root(16 * h + i))
  }

  lemma Row0(i: nat)
    requires i < 16
    ensures RoundedAt(0, i)
  {
  }

  lemma Row1(i: nat)
    requires i < 16
    ensures RoundedAt(1, i)
  {
  }

  lemma Row2(i: nat)
    requires i < 16
    ensures RoundedAt(2, i)
  {
  }

  lemma Row3(i: nat)
    requires i < 16
    ensures RoundedAt(3, i)
  {
  }

  lemma Row4(i: nat)
    requires i < 16
    ensures RoundedAt(4, i)
  {
  }

  lemma Row5(i: nat)
    requires i < 16
    ensures RoundedAt(5, i)
  {
  }

  lemma Row6(i: nat)
    requires i < 16
    ensures RoundedAt(6, i)
  {
  }

  lemma Row7(i: nat)
    requires i < 16
    ensures RoundedAt(7, i)
  {
  }

  lemma Row8(i: nat)
    requires i < 16
    ensures RoundedAt(8, i)
  {
    assert Coarse(8) == Complex(0, -SCALE);
  }

  lemma Row9(i: nat)
    requires i < 16
    ensures RoundedAt(9, i)
  {
  }

  lemma Row10(i: nat)
    requires i < 16
    ensures RoundedAt(10, i)
  {
  }

  lemma Row11(i: nat)
    requires i < 16
    ensures RoundedAt(11, i)
  {
  }

  lemma Row12(i: nat)
    requires i < 16
    ensures RoundedAt(12, i)
  {
  }

  lemma Row13(i: nat)
    requires i < 16
    ensures RoundedAt(13, i)
  {
  }

  lemma Row14(i: nat)
    requires i < 16
    ensures RoundedAt(14, i)
  {
  }

  lemma Row15(i: nat)
    requires i < 16
    ensures RoundedAt(15, i)
  {
  }

  lemma Rounded(h: nat, i: nat)
    requires h < 16 && i < 16
    ensures RoundedAt(h, i)
  {
    hide RoundedAt;
    match h
    case 0 => Row0(i);
    case 1 => Row1(i);
    case 2 => Row2(i);
    case 3 => Row3(i);
    case 4 => Row4(i);
    case 5 => Row5(i);
    case 6 => Row6(i);
    case 7 => Row7(i);
    case 8 => Row8(i);
    case 9 => Row9(i);
    case 10 => Row10(i);
    case 11 => Row11(i);
    case 12 => Row12(i);
    case 13 => Row13(i);
    case 14 => Row14(i);
    case 15 => Row15(i);
  }

  lemma Units()
    ensures Fine(0) == Coarse(0) == Complex(SCALE, 0) && Coarse(8) == Complex(0, -SCALE)
    ensures forall i: nat | i == 1 || i == 2 || i == 4 || i == 8 :: 0xEA00_0000 <= Fine(i).re
    ensures 0xEA00_0000 <= Coarse(1).re && 0xEA00_0000 <= Coarse(2).re && 0xB000_0000 <= Coarse(4).re
  {
  }
}
