/** The shipped table of roots and the facts the transforms need of it. */
module ZetaTable {
  import opened Reduce

  const ROOT := 426 // a primitive 512th root of unity modulo Q

  /** zetas_haetae[k]. */
  function Zeta(k: nat): int
    requires k < 256
  {
    if k < 128 then
     if k < 64 then
      if k < 32 then
       if k < 16 then
        if k < 8 then
         if k < 4 then if k < 2 then if k < 1 then 0 else 26964 else if k < 3 then -16505 else 22229 else if k < 6 then if k < 5 then 30746 else 20243 else if k < 7 then 19064 else -31218
        else
         if k < 12 then if k < 10 then if k < 9 then 9395 else -30985 else if k < 11 then 22859 else -8851 else if k < 14 then if k < 13 then 32144 else 13744 else if k < 15 then 21408 else 17599
       else
        if k < 24 then
         if k < 20 then if k < 18 then if k < 17 then -16039 else -22946 else if k < 19 then 6241 else -19553 else if k < 22 then if k < 21 then 10681 else 22935 else if k < 23 then 22431 else -29104
        else
         if k < 28 then if k < 26 then if k < 25 then 28147 else -27527 else if k < 27 then -29133 else -20035 else if k < 30 then if k < 29 then 20143 else -11361 else if k < 31 then 30820 else 25252
      else
       if k < 48 then
        if k < 40 then
         if k < 36 then if k < 34 then if k < 33 then -22562 else -6789 else if k < 35 then -10049 else 9383 else if k < 38 then if k < 37 then 16304 else -12296 else if k < 39 then 16446 else 18239
        else
         if k < 44 then if k < 42 then if k < 41 then -1296 else -19725 else if k < 43 then -32076 else 11782 else if k < 46 then if k < 45 then -17941 else 29643 else if k < 47 then -8577 else 7893
       else
        if k < 56 then
         if k < 52 then if k < 50 then if k < 49 then -21464 else -19646 else if k < 51 then -15130 else -2391 else if k < 54 then if k < 53 then 30608 else -23970 else if k < 55 then -16608 else 19616
        else
         if k < 60 then if k < 58 then if k < 57 then -7941 else 26533 else if k < 59 then -19129 else 27690 else if k < 62 then if k < 61 then 7597 else -11459 else if k < 63 then 10615 else -9430
     else
      if k < 96 then
       if k < 80 then
        if k < 72 then
         if k < 68 then if k < 66 then if k < 65 then 11591 else 7814 else if k < 67 then 12697 else 32114 else if k < 70 then if k < 69 then -3761 else -9604 else if k < 71 then 19813 else 20353
        else
         if k < 76 then if k < 74 then if k < 73 then 17456 else -16267 else if k < 75 then -19555 else 598 else if k < 78 then if k < 77 then -29942 else 4538 else if k < 79 then 835 else 15546
       else
        if k < 88 then
         if k < 84 then if k < 82 then if k < 81 then 3970 else -27685 else if k < 83 then 1488 else 8311 else if k < 86 then if k < 85 then -12442 else 31352 else if k < 87 then -17631 else 1806
        else
         if k < 92 then if k < 90 then if k < 89 then -5342 else 9790 else if k < 91 then 29068 else 16507 else if k < 94 then if k < 93 then -29051 else 22131 else if k < 95 then 6759 else 15510
      else
       if k < 112 then
        if k < 104 then
         if k < 100 then if k < 98 then if k < 97 then -14941 else 28710 else if k < 99 then 1160 else -31327 else if k < 102 then if k < 101 then 24985 else 11261 else if k < 103 then -10623 else -27727
        else
         if k < 108 then if k < 106 then if k < 105 then 21502 else 18731 else if k < 107 then -16186 else -4127 else if k < 110 then if k < 109 then -18832 else 12050 else if k < 111 then -14501 else 7929
       else
        if k < 120 then
         if k < 116 then if k < 114 then if k < 113 then 29563 else -31064 else if k < 115 then 5913 else 5322 else if k < 118 then if k < 117 then -16405 else 2844 else if k < 119 then 29439 else 5876
        else
         if k < 124 then if k < 122 then if k < 121 then -9522 else -18586 else if k < 123 then -9874 else 23844 else if k < 126 then if k < 125 then 30362 else -21442 else if k < 127 then 9560 else 17671
    else
     if k < 192 then
      if k < 160 then
       if k < 144 then
        if k < 136 then
         if k < 132 then if k < 130 then if k < 129 then -27989 else 3350 else if k < 131 then 787 else -13857 else if k < 134 then if k < 133 then 1657 else -21224 else if k < 135 then -7374 else -9190
        else
         if k < 140 then if k < 138 then if k < 137 then 2464 else 25555 else if k < 139 then -3529 else -28772 else if k < 142 then if k < 141 then 16588 else -15739 else if k < 143 then 23475 else 13666
       else
        if k < 152 then
         if k < 148 then if k < 146 then if k < 145 then 5764 else 30980 else if k < 147 then 13633 else -7401 else if k < 150 then if k < 149 then -30317 else 28847 else if k < 151 then 7682 else -11808
        else
         if k < 156 then if k < 154 then if k < 153 then -8796 else 14864 else if k < 155 then -24162 else -19194 else if k < 158 then if k < 157 then 689 else -1311 else if k < 159 then -31332 else -16319
      else
       if k < 176 then
        if k < 168 then
         if k < 164 then if k < 162 then if k < 161 then 1025 else 10971 else if k < 163 then -23016 else -2648 else if k < 166 then if k < 165 then -21900 else -12543 else if k < 167 then -25921 else 28254
        else
         if k < 172 then if k < 170 then if k < 169 then 28521 else -16160 else if k < 171 then 12380 else -12882 else if k < 174 then if k < 173 then -30332 else -16630 else if k < 175 then 23439 else 7742
       else
        if k < 184 then
         if k < 180 then if k < 178 then if k < 177 then 17182 else 17494 else if k < 179 then 5920 else 13642 else if k < 182 then if k < 181 then 7382 else -18166 else if k < 183 then 21422 else -30274
        else
         if k < 188 then if k < 186 then if k < 185 then -28190 else 13283 else if k < 187 then -20316 else -9939 else if k < 190 then if k < 189 then 10672 else 21454 else if k < 191 then 6080 else -17374
     else
      if k < 224 then
       if k < 208 then
        if k < 200 then
         if k < 196 then if k < 194 then if k < 193 then -29735 else -25912 else if k < 195 then -10170 else 3808 else if k < 198 then if k < 197 then 10639 else -26985 else if k < 199 then -10865 else 25636
        else
         if k < 204 then if k < 202 then if k < 201 then 17261 else -26851 else if k < 203 then -8253 else -3304 else if k < 206 then if k < 205 then 18282 else -2202 else if k < 207 then -31368 else -22243
       else
        if k < 216 then
         if k < 212 then if k < 210 then if k < 209 then 13882 else 12069 else if k < 211 then -11242 else -7729 else if k < 214 then if k < 213 then -10226 else 1761 else if k < 215 then -27298 else -4800
        else
         if k < 220 then if k < 218 then if k < 217 then -17737 else -22805 else if k < 219 then -3528 else 65 else if k < 222 then if k < 221 then 10770 else 8908 else if k < 223 then -23751 else 26934
      else
       if k < 240 then
        if k < 232 then
         if k < 228 then if k < 226 then if k < 225 then 21921 else -27010 else if k < 227 then -21944 else 8889 else if k < 230 then if k < 229 then -1035 else 23224 else if k < 231 then -9488 else -5823
        else
         if k < 236 then if k < 234 then if k < 233 then -994 else -20206 else if k < 235 then 7655 else -16251 else if k < 238 then if k < 237 then -22820 else -27740 else if k < 239 then 15822 else 23078
       else
        if k < 248 then
         if k < 244 then if k < 242 then if k < 241 then 13803 else -8099 else if k < 243 then 2931 else 9217 else if k < 246 then if k < 245 then -21126 else -14203 else if k < 247 then 25492 else -12831
        else
         if k < 252 then if k < 250 then if k < 249 then 7947 else 17463 else if k < 251 then -12979 else 29003 else if k < 254 then if k < 253 then 31612 else 26554 else if k < 255 then 8241 else -20175
  }

  /** The first index of the level of k when the table is read as a binary heap. */
  function Base(k: nat): (b: nat)
    requires 1 <= k < 512
    ensures 1 <= b <= k < 2 * b && b <= 256
  {
    if k < 2 then 1 else if k < 4 then 2 else if k < 8 then 4 else if k < 16 then 8 else if k < 32 then 16
    else if k < 64 then 32 else if k < 128 then 64 else if k < 256 then 128 else 256
  }

  /** The partner of k: its level read backwards. */
  function Mirror(k: nat): nat
    requires 1 <= k < 256
    ensures 1 <= Mirror(k) < 256
  {
    3 * Base(k) - 1 - k
  }

  /** An entry squares to its parent up to sign, is inverse to its partner up to sign, and is small. */
  predicate Fact(k: nat, zeta: int, parent: int, partner: int) {
    && (zeta * zeta - (if k == 1 then -MONT * MONT else if k % 2 == 0 then MONT * parent else -MONT * parent)) % Q == 0
    && (zeta * partner + MONT * MONT) % Q == 0
    && -32144 <= zeta <= 32144
  }

  /** An entry is the product of the entries for its top bit and for the rest, in Montgomery form; the last level starts
      with the primitive root. */
  predicate ProductFact(k: nat, zeta: int, top: int, rest: int)
    requires 1 <= k < 256
  {
    if k == Base(k) then k == 128 ==> (zeta - ROOT * MONT) % Q == 0 else (zeta * MONT - top * rest) % Q == 0
  }

  predicate ShippedAt(k: nat)
    requires 1 <= k < 256
  {
    && Fact(k, Zeta(k), Zeta(k / 2), Zeta(Mirror(k)))
    && ProductFact(k, Zeta(k), Zeta(Base(k)), Zeta(k - Base(k)))
  }

  /** The facts for the shipped entries from lo up to hi. */
  predicate Computed(lo: nat, hi: nat)
    requires 1 <= lo && hi <= 256
    decreases hi - lo
  {
    lo >= hi || (ShippedAt(lo) && Computed(lo + 1, hi))
  }

  lemma {:induction false} FactAt(lo: nat, hi: nat, k: nat)
    requires 1 <= lo <= k < hi <= 256 && Computed(lo, hi)
    ensures ShippedAt(k)
    decreases hi - lo
  {
    if lo < k {
      FactAt(lo + 1, hi, k);
    }
  }

  lemma Computed1() ensures Computed(1, 4) {}
  lemma Computed4() ensures Computed(4, 8) {}
  lemma Computed8() ensures Computed(8, 12) {}
  lemma Computed12() ensures Computed(12, 16) {}
  lemma Computed16() ensures Computed(16, 20) {}
  lemma Computed20() ensures Computed(20, 24) {}
  lemma Computed24() ensures Computed(24, 28) {}
  lemma Computed28() ensures Computed(28, 32) {}
  lemma Computed32() ensures Computed(32, 36) {}
  lemma Computed36() ensures Computed(36, 40) {}
  lemma Computed40() ensures Computed(40, 44) {}
  lemma Computed44() ensures Computed(44, 48) {}
  lemma Computed48() ensures Computed(48, 52) {}
  lemma Computed52() ensures Computed(52, 56) {}
  lemma Computed56() ensures Computed(56, 60) {}
  lemma Computed60() ensures Computed(60, 64) {}
  lemma Computed64() ensures Computed(64, 68) {}
  lemma Computed68() ensures Computed(68, 72) {}
  lemma Computed72() ensures Computed(72, 76) {}
  lemma Computed76() ensures Computed(76, 80) {}
  lemma Computed80() ensures Computed(80, 84) {}
  lemma Computed84() ensures Computed(84, 88) {}
  lemma Computed88() ensures Computed(88, 92) {}
  lemma Computed92() ensures Computed(92, 96) {}
  lemma Computed96() ensures Computed(96, 100) {}
  lemma Computed100() ensures Computed(100, 104) {}
  lemma Computed104() ensures Computed(104, 108) {}
  lemma Computed108() ensures Computed(108, 112) {}
  lemma Computed112() ensures Computed(112, 116) {}
  lemma Computed116() ensures Computed(116, 120) {}
  lemma Computed120() ensures Computed(120, 124) {}
  lemma Computed124() ensures Computed(124, 128) {}
  lemma Computed128() ensures Computed(128, 132) {}
  lemma Computed132() ensures Computed(132, 136) {}
  lemma Computed136() ensures Computed(136, 140) {}
  lemma Computed140() ensures Computed(140, 144) {}
  lemma Computed144() ensures Computed(144, 148) {}
  lemma Computed148() ensures Computed(148, 152) {}
  lemma Computed152() ensures Computed(152, 156) {}
  lemma Computed156() ensures Computed(156, 160) {}
  lemma Computed160() ensures Computed(160, 164) {}
  lemma Computed164() ensures Computed(164, 168) {}
  lemma Computed168() ensures Computed(168, 172) {}
  lemma Computed172() ensures Computed(172, 176) {}
  lemma Computed176() ensures Computed(176, 180) {}
  lemma Computed180() ensures Computed(180, 184) {}
  lemma Computed184() ensures Computed(184, 188) {}
  lemma Computed188() ensures Computed(188, 192) {}
  lemma Computed192() ensures Computed(192, 196) {}
  lemma Computed196() ensures Computed(196, 200) {}
  lemma Computed200() ensures Computed(200, 204) {}
  lemma Computed204() ensures Computed(204, 208) {}
  lemma Computed208() ensures Computed(208, 212) {}
  lemma Computed212() ensures Computed(212, 216) {}
  lemma Computed216() ensures Computed(216, 220) {}
  lemma Computed220() ensures Computed(220, 224) {}
  lemma Computed224() ensures Computed(224, 228) {}
  lemma Computed228() ensures Computed(228, 232) {}
  lemma Computed232() ensures Computed(232, 236) {}
  lemma Computed236() ensures Computed(236, 240) {}
  lemma Computed240() ensures Computed(240, 244) {}
  lemma Computed244() ensures Computed(244, 248) {}
  lemma Computed248() ensures Computed(248, 252) {}
  lemma Computed252() ensures Computed(252, 256) {}

  lemma FirstQuarter(k: nat)
    requires 1 <= k < 64
    ensures ShippedAt(k)
  {
    hide ShippedAt, Computed;
    match k / 4
    case 0 => Computed1(); FactAt(1, 4, k);
    case 1 => Computed4(); FactAt(4, 8, k);
    case 2 => Computed8(); FactAt(8, 12, k);
    case 3 => Computed12(); FactAt(12, 16, k);
    case 4 => Computed16(); FactAt(16, 20, k);
    case 5 => Computed20(); FactAt(20, 24, k);
    case 6 => Computed24(); FactAt(24, 28, k);
    case 7 => Computed28(); FactAt(28, 32, k);
    case 8 => Computed32(); FactAt(32, 36, k);
    case 9 => Computed36(); FactAt(36, 40, k);
    case 10 => Computed40(); FactAt(40, 44, k);
    case 11 => Computed44(); FactAt(44, 48, k);
    case 12 => Computed48(); FactAt(48, 52, k);
    case 13 => Computed52(); FactAt(52, 56, k);
    case 14 => Computed56(); FactAt(56, 60, k);
    case 15 => Computed60(); FactAt(60, 64, k);
  }

  lemma SecondQuarter(k: nat)
    requires 64 <= k < 128
    ensures ShippedAt(k)
  {
    hide ShippedAt, Computed;
    match k / 4
    case 16 => Computed64(); FactAt(64, 68, k);
    case 17 => Computed68(); FactAt(68, 72, k);
    case 18 => Computed72(); FactAt(72, 76, k);
    case 19 => Computed76(); FactAt(76, 80, k);
    case 20 => Computed80(); FactAt(80, 84, k);
    case 21 => Computed84(); FactAt(84, 88, k);
    case 22 => Computed88(); FactAt(88, 92, k);
    case 23 => Computed92(); FactAt(92, 96, k);
    case 24 => Computed96(); FactAt(96, 100, k);
    case 25 => Computed100(); FactAt(100, 104, k);
    case 26 => Computed104(); FactAt(104, 108, k);
    case 27 => Computed108(); FactAt(108, 112, k);
    case 28 => Computed112(); FactAt(112, 116, k);
    case 29 => Computed116(); FactAt(116, 120, k);
    case 30 => Computed120(); FactAt(120, 124, k);
    case 31 => Computed124(); FactAt(124, 128, k);
  }

  lemma ThirdQuarter(k: nat)
    requires 128 <= k < 192
    ensures ShippedAt(k)
  {
    hide ShippedAt, Computed;
    match k / 4
    case 32 => Computed128(); FactAt(128, 132, k);
    case 33 => Computed132(); FactAt(132, 136, k);
    case 34 => Computed136(); FactAt(136, 140, k);
    case 35 => Computed140(); FactAt(140, 144, k);
    case 36 => Computed144(); FactAt(144, 148, k);
    case 37 => Computed148(); FactAt(148, 152, k);
    case 38 => Computed152(); FactAt(152, 156, k);
    case 39 => Computed156(); FactAt(156, 160, k);
    case 40 => Computed160(); FactAt(160, 164, k);
    case 41 => Computed164(); FactAt(164, 168, k);
    case 42 => Computed168(); FactAt(168, 172, k);
    case 43 => Computed172(); FactAt(172, 176, k);
    case 44 => Computed176(); FactAt(176, 180, k);
    case 45 => Computed180(); FactAt(180, 184, k);
    case 46 => Computed184(); FactAt(184, 188, k);
    case 47 => Computed188(); FactAt(188, 192, k);
  }

  lemma LastQuarter(k: nat)
    requires 192 <= k < 256
    ensures ShippedAt(k)
  {
    hide ShippedAt, Computed;
    match k / 4
    case 48 => Computed192(); FactAt(192, 196, k);
    case 49 => Computed196(); FactAt(196, 200, k);
    case 50 => Computed200(); FactAt(200, 204, k);
    case 51 => Computed204(); FactAt(204, 208, k);
    case 52 => Computed208(); FactAt(208, 212, k);
    case 53 => Computed212(); FactAt(212, 216, k);
    case 54 => Computed216(); FactAt(216, 220, k);
    case 55 => Computed220(); FactAt(220, 224, k);
    case 56 => Computed224(); FactAt(224, 228, k);
    case 57 => Computed228(); FactAt(228, 232, k);
    case 58 => Computed232(); FactAt(232, 236, k);
    case 59 => Computed236(); FactAt(236, 240, k);
    case 60 => Computed240(); FactAt(240, 244, k);
    case 61 => Computed244(); FactAt(244, 248, k);
    case 62 => Computed248(); FactAt(248, 252, k);
    case 63 => Computed252(); FactAt(252, 256, k);
  }

  /** The facts hold of the whole shipped table. */
  lemma ShippedFact(k: nat)
    requires 1 <= k < 256
    ensures ShippedAt(k)
  {
    hide ShippedAt;
    if k < 64 {
      FirstQuarter(k);
    } else if k < 128 {
      SecondQuarter(k);
    } else if k < 192 {
      ThirdQuarter(k);
    } else {
      LastQuarter(k);
    }
  }
}
