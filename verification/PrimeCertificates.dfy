/** The certificates of the bucket counts: trial division for the smaller ones, and for each larger one elements of
    large prime order, with the digits of the orders, the powers on the way and the inverses that tell them from one. */
module PrimeCertificates {
  import opened Arithmetic
  import opened Primality

  lemma Row0()
    ensures IsPrime(2) && IsPrime(3) && IsPrime(5) && IsPrime(7) && IsPrime(11) && IsPrime(13) && IsPrime(17) &&
      IsPrime(19) && IsPrime(23) && IsPrime(29) && IsPrime(31) && IsPrime(37) && IsPrime(41) && IsPrime(43) &&
      IsPrime(47) && IsPrime(53)
  {
    hide IsPrime;
    SmallestPrimes();
    ByShortTrial(19); ByShortTrial(23); ByShortTrial(29); ByShortTrial(31); ByShortTrial(37); ByShortTrial(41);
    ByShortTrial(43); ByShortTrial(47); ByShortTrial(53);
  }

  lemma Row1()
    ensures IsPrime(59) && IsPrime(61) && IsPrime(67) && IsPrime(71) && IsPrime(73) && IsPrime(79) && IsPrime(83) &&
      IsPrime(89) && IsPrime(97) && IsPrime(103) && IsPrime(109) && IsPrime(113) && IsPrime(127) && IsPrime(137) &&
      IsPrime(139) && IsPrime(149)
  {
    hide IsPrime;
    ByShortTrial(59); ByShortTrial(61); ByShortTrial(67); ByShortTrial(71); ByShortTrial(73); ByShortTrial(79);
    ByShortTrial(83); ByShortTrial(89); ByShortTrial(97); ByShortTrial(103); ByShortTrial(109); ByShortTrial(113);
    ByShortTrial(127); ByShortTrial(137); ByShortTrial(139); ByShortTrial(149);
  }

  lemma Row2()
    ensures IsPrime(157) && IsPrime(167) && IsPrime(179) && IsPrime(193) && IsPrime(199) && IsPrime(211) &&
      IsPrime(227) && IsPrime(241) && IsPrime(257) && IsPrime(277) && IsPrime(293) && IsPrime(313) && IsPrime(337) &&
      IsPrime(359) && IsPrime(383) && IsPrime(409)
  {
    hide IsPrime;
    ByShortTrial(157); ByShortTrial(167); ByShortTrial(179); ByShortTrial(193); ByShortTrial(199); ByShortTrial(211);
    ByShortTrial(227); ByShortTrial(241); ByShortTrial(257); ByShortTrial(277); ByShortTrial(293); ByShortTrial(313);
    ByShortTrial(337); ByShortTrial(359); ByTrial(383); ByTrial(409);
  }

  lemma Row3A()
    ensures IsPrime(439) && IsPrime(467) && IsPrime(503) && IsPrime(541) && IsPrime(577) && IsPrime(619) &&
      IsPrime(661)
  {
    hide IsPrime;
    ByTrial(439); ByTrial(467); ByTrial(503); ByTrial(541); ByTrial(577); ByTrial(619); ByTrial(661);
  }

  lemma Row3B()
    ensures IsPrime(709) && IsPrime(761) && IsPrime(823) && IsPrime(887) && IsPrime(953) && IsPrime(1031) &&
      IsPrime(1109)
  {
    hide IsPrime;
    ByTrial(709); ByTrial(761); ByTrial(823); ByTrial(887); ByTrial(953); ByTrial(1031); ByTrial(1109);
  }

  lemma Row3C()
    ensures IsPrime(1193) && IsPrime(1289)
  {
    hide IsPrime;
    ByTrial(1193); ByTrial(1289);
  }

  lemma Row4A()
    ensures IsPrime(1381) && IsPrime(1493) && IsPrime(1613) && IsPrime(1741) && IsPrime(1879) && IsPrime(2029) &&
      IsPrime(2179)
  {
    hide IsPrime;
    ByTrial(1381); ByTrial(1493); ByTrial(1613); ByTrial(1741); ByTrial(1879); ByTrial(2029); ByTrial(2179);
  }

  lemma Row4B()
    ensures IsPrime(2357) && IsPrime(2549) && IsPrime(2753) && IsPrime(2971) && IsPrime(3209) && IsPrime(3469) &&
      IsPrime(3739)
  {
    hide IsPrime;
    ByTrial(2357); ByTrial(2549); ByTrial(2753); ByTrial(2971); ByTrial(3209); ByTrial(3469); ByTrial(3739);
  }

  lemma Row4C()
    ensures IsPrime(4027) && IsPrime(4349)
  {
    hide IsPrime;
    ByTrial(4027); ByTrial(4349);
  }

  lemma Row5A()
    ensures IsPrime(4703) && IsPrime(5087) && IsPrime(5503) && IsPrime(5953) && IsPrime(6427) && IsPrime(6949) &&
      IsPrime(7517)
  {
    hide IsPrime;
    ByTrial(4703); ByTrial(5087); ByTrial(5503); ByTrial(5953); ByTrial(6427); ByTrial(6949); ByTrial(7517);
  }

  lemma Row5B()
    ensures IsPrime(8123) && IsPrime(8783) && IsPrime(9497) && IsPrime(10273) && IsPrime(11113) && IsPrime(12011) &&
      IsPrime(12983)
  {
    hide IsPrime;
    ByTrial(8123); ByTrial(8783); ByTrial(9497); ByTrial(10273); ByTrial(11113); ByTrial(12011); ByTrial(12983);
  }

  lemma Row5C()
    ensures IsPrime(14033) && IsPrime(15173)
  {
    hide IsPrime;
    ByTrial(14033); ByTrial(15173);
  }

  lemma Row6A()
    ensures IsPrime(16411) && IsPrime(17749) && IsPrime(19183) && IsPrime(20753) && IsPrime(22447) &&
      IsPrime(24281) && IsPrime(26267)
  {
    hide IsPrime;
    ByTrial(16411); ByTrial(17749); ByTrial(19183); ByTrial(20753); ByTrial(22447); ByTrial(24281); ByTrial(26267);
  }

  lemma Row6B()
    ensures IsPrime(28411) && IsPrime(30727) && IsPrime(33223) && IsPrime(35933) && IsPrime(38873) &&
      IsPrime(42043) && IsPrime(45481)
  {
    hide IsPrime;
    ByTrial(28411); ByTrial(30727); ByTrial(33223); ByTrial(35933); ByTrial(38873); ByTrial(42043); ByTrial(45481);
  }

  lemma Row6C()
    ensures IsPrime(49201) && IsPrime(53201)
  {
    hide IsPrime;
    ByTrial(49201); ByTrial(53201);
  }

  lemma Row7A()
    ensures IsPrime(57557) && IsPrime(62233) && IsPrime(67307) && IsPrime(72817) && IsPrime(78779) && IsPrime(85229)
  {
    hide IsPrime;
    ByTrial(57557); ByTrial(62233); ByTrial(67307); ByTrial(72817); ByTrial(78779); ByTrial(85229);
  }

  lemma Row7B()
    ensures IsPrime(92203) && IsPrime(99733) && IsPrime(107897)
  {
    hide IsPrime, Gives, Power;
    SmallestPrimes();
    ByShortTrial(127); ByTrial(8311); ByTrial(13487);
    EightBits(92203, 17727, 18705, 21547, 0, 1, 1, 17727, 3, 6668, 3, 78707, 3, 1);
    FourBits(92203, 83848, 8354, 1, 0, 1, 0, 1, 3, 1);
    ByTwo(92203, 127, 17727, 40463, 3, 83848, 64253);
    TwelveBits(99733, 14386, 11021, 72369, 2, 11021, 0, 5119, 0, 38784, 1, 41928, 3, 61657, 1, 93704, 3, 1);
    ByOne(99733, 8311, 14386, 82005);
    TwelveBits(107897, 19090, 59931, 50899, 3, 50899, 1, 95019, 0, 13775, 2, 42073, 2, 8393, 3, 51282, 3, 1);
    ByOne(107897, 13487, 19090, 70750);
  }

  lemma Row7C()
    ensures IsPrime(116731) && IsPrime(126271) && IsPrime(136607)
  {
    hide IsPrime, Gives, Power;
    ByTrial(1297); ByShortTrial(61); ByShortTrial(23); ByTrial(409);
    TwelveBits(116731, 36888, 108008, 53343, 0, 1, 1, 36888, 1, 95508, 0, 105984, 1, 1545, 0, 70519, 1, 1);
    ByOne(116731, 1297, 36888, 250);
    FourBits(126271, 46863, 35537, 108483, 3, 108483, 3, 4747, 1, 1);
    FourBits(126271, 49199, 52802, 32315, 1, 49199, 1, 122878, 3, 1);
    ByTwo(126271, 61, 46863, 79141, 23, 49199, 96881);
    EightBits(136607, 123422, 80121, 123153, 1, 123422, 2, 5841, 1, 22052, 2, 60026, 1, 1);
    ByOne(136607, 409, 123422, 259);
  }

  lemma Row7D()
    ensures IsPrime(147793) && IsPrime(159871) && IsPrime(172933)
  {
    hide IsPrime, Gives, Power;
    SmallestPrimes();
    ByTrial(3079); ByShortTrial(73); ByTrial(14411);
    TwelveBits(147793, 76850, 114220, 85144, 0, 1, 3, 85144, 0, 18171, 0, 51282, 0, 80010, 1, 788, 3, 1);
    ByOne(147793, 3079, 76850, 65099);
    EightBits(159871, 159724, 21609, 20897, 0, 1, 1, 159724, 0, 125561, 2, 141891, 1, 1);
    FourBits(159871, 143063, 16807, 1, 0, 1, 0, 1, 3, 1);
    FourBits(159871, 159870, 1, 159870, 0, 1, 0, 1, 2, 1);
    ByThree(159871, 73, 159724, 46449, 3, 143063, 5602, 2, 159870, 79935);
    TwelveBits(172933, 33911, 124404, 136442, 3, 136442, 2, 26697, 0, 90904, 1, 171460, 0, 2381, 2, 92311, 3, 1);
    ByOne(172933, 14411, 33911, 157802);
  }

  lemma Row7E()
    ensures IsPrime(187091)
  {
    hide IsPrime, Gives, Power;
    ByShortTrial(353);
    EightBits(187091, 101817, 176270, 17142, 1, 101817, 1, 100690, 2, 113718, 0, 45238, 1, 1);
    BySign(187091, 353, 101817, 142029);
  }

  lemma Row8A()
    ensures IsPrime(202409) && IsPrime(218971)
  {
    hide IsPrime, Gives, Power;
    ByTrial(25301); ByTrial(811);
    SixteenBits(202409, 178752, 195173, 146447, 0, 1, 1, 178752, 2, 73396, 0, 92882, 2, 166157, 3, 61998, 1, 69400, 1,
                131603, 1, 1);
    ByOne(202409, 25301, 178752, 26993);
    EightBits(218971, 164826, 97277, 65269, 3, 65269, 0, 105857, 2, 116666, 2, 203240, 3, 1);
    ByOne(218971, 811, 164826, 123842);
  }

  lemma Row8B()
    ensures IsPrime(236897) && IsPrime(256279) && IsPrime(277261)
  {
    hide IsPrime, Gives, Power;
    ByTrial(673); ByShortTrial(353); ByTrial(4621);
    EightBits(236897, 26294, 108990, 40051, 2, 108990, 2, 124297, 2, 94702, 0, 65512, 1, 1);
    ByOne(236897, 673, 26294, 179495);
    EightBits(256279, 187401, 198315, 130130, 1, 187401, 1, 204487, 2, 97091, 0, 64352, 1, 1);
    BySign(256279, 353, 187401, 154644);
    TwelveBits(277261, 248228, 41649, 217065, 1, 248228, 0, 94385, 2, 44609, 0, 244515, 0, 152520, 3, 182355, 1, 1);
    ByOne(277261, 4621, 248228, 136606);
  }

  lemma Row8C()
    ensures IsPrime(299951) && IsPrime(324503)
  {
    hide IsPrime, Gives, Power;
    SmallestPrimes();
    ByTrial(857); ByShortTrial(59);
    EightBits(299951, 183958, 73944, 112453, 3, 112453, 1, 4810, 1, 51995, 2, 98714, 1, 1);
    ByOne(299951, 857, 183958, 84950);
    FourBits(162251, 90341, 108730, 101390, 3, 101390, 2, 130317, 3, 1);
    FourBits(162251, 95317, 85744, 115727, 0, 1, 2, 85744, 3, 1);
    ByTwo(162251, 59, 90341, 34248, 11, 95317, 132123);
    SixteenBits(324503, 174749, 182689, 114921, 2, 182689, 1, 281935, 3, 192696, 2, 28138, 1, 228520, 3, 232080, 0,
                288371, 2, 75283, 3, 1);
    ByOne(324503, 162251, 174749, 148664);
  }

  lemma Row8D()
    ensures IsPrime(351061) && IsPrime(379787) && IsPrime(410857)
  {
    hide IsPrime, Gives, Power;
    SmallestPrimes();
    ByTrial(5851); ByShortTrial(61); ByShortTrial(53);
    TwelveBits(351061, 180053, 3703, 71420, 1, 180053, 1, 119327, 2, 298572, 3, 185995, 1, 334667, 2, 69155, 3, 1);
    ByOne(351061, 5851, 180053, 106448);
    FourBits(379787, 300870, 145663, 105945, 3, 105945, 3, 206471, 1, 1);
    FourBits(379787, 308994, 359384, 59618, 0, 1, 2, 359384, 3, 1);
    ByTwo(379787, 61, 300870, 278779, 11, 308994, 368548);
    FourBits(410857, 178954, 285251, 290346, 3, 290346, 1, 408352, 1, 1);
    FourBits(410857, 99644, 156474, 82963, 1, 99644, 0, 322332, 1, 1);
    ByTwo(410857, 53, 178954, 266730, 17, 99644, 159761);
  }

  lemma Row8E()
    ensures IsPrime(444487) && IsPrime(480881)
  {
    hide IsPrime, Gives, Power;
    ByTrial(557); ByTrial(6011);
    EightBits(444487, 192743, 85076, 233551, 2, 85076, 0, 382105, 2, 142385, 3, 197686, 1, 1);
    BySign(444487, 557, 192743, 235310);
    TwelveBits(480881, 4074, 247522, 478052, 1, 4074, 1, 403879, 3, 123210, 1, 445434, 3, 408996, 2, 236805, 3, 1);
    ByOne(480881, 6011, 4074, 289969);
  }

  lemma Row8F()
    ensures IsPrime(520241) && IsPrime(562841) && IsPrime(608903)
  {
    hide IsPrime, Gives, Power;
    ByTrial(929); ByTrial(14071); ByShortTrial(61); ByShortTrial(23);
    EightBits(520241, 79560, 21353, 257815, 3, 257815, 2, 456462, 2, 242921, 0, 116733, 1, 1);
    ByOne(520241, 929, 79560, 44616);
    TwelveBits(562841, 511922, 298915, 456278, 3, 456278, 1, 492363, 2, 394381, 3, 194259, 3, 487520, 1, 466493, 3,
               1);
    ByOne(562841, 14071, 511922, 51299);
    FourBits(608903, 130466, 102694, 382695, 3, 382695, 3, 26902, 1, 1);
    FourBits(608903, 166784, 386907, 183857, 1, 166784, 1, 467324, 3, 1);
    ByTwo(608903, 61, 130466, 15299, 23, 166784, 49535);
  }

  lemma Row8G()
    ensures IsPrime(658753)
  {
    hide IsPrime, Gives, Power;
    ByShortTrial(73); ByShortTrial(47);
    EightBits(658753, 306712, 346285, 336236, 0, 1, 1, 306712, 0, 492635, 2, 268095, 1, 1);
    FourBits(658753, 633786, 170751, 309199, 2, 170751, 3, 635274, 3, 1);
    ByTwo(658753, 73, 306712, 29006, 47, 633786, 170994);
  }

  lemma Row9A()
    ensures IsPrime(712697) && IsPrime(771049)
  {
    hide IsPrime, Gives, Power;
    ByTrial(89087); ByTrial(10709);
    SixteenBits(712697, 682584, 242185, 111496, 1, 682584, 1, 707521, 1, 440879, 2, 476820, 3, 633170, 3, 144853, 3,
                39804, 3, 227058, 3, 1);
    ByOne(712697, 89087, 682584, 237542);
    TwelveBits(771049, 384111, 263122, 493720, 2, 263122, 2, 450927, 1, 476872, 3, 582336, 1, 23997, 1, 190052, 1, 1);
    ByOne(771049, 10709, 384111, 465791);
  }

  lemma Row9B()
    ensures IsPrime(834181) && IsPrime(902483)
  {
    hide IsPrime, Gives, Power;
    ByTrial(13903); ByTrial(9209);
    TwelveBits(834181, 404651, 209130, 337904, 3, 337904, 1, 777885, 2, 573086, 1, 356896, 0, 52905, 3, 807905, 3, 1);
    ByOne(834181, 13903, 404651, 206827);
    TwelveBits(902483, 796647, 542383, 588993, 2, 542383, 0, 767122, 3, 92703, 3, 596821, 3, 836256, 2, 399047, 1, 1);
    ByOne(902483, 9209, 796647, 656766);
  }

  lemma Row9C()
    ensures IsPrime(976369) && IsPrime(1056323)
  {
    hide IsPrime, Gives, Power;
    ByTrial(20341); ByTrial(7883);
    SixteenBits(976369, 527791, 382136, 373615, 0, 1, 1, 527791, 0, 222118, 3, 918687, 3, 39492, 1, 336633, 3, 681839,
                1, 441736, 1, 1);
    ByOne(976369, 20341, 527791, 260748);
    TwelveBits(1056323, 578551, 1021622, 176687, 1, 578551, 3, 250965, 2, 3272, 3, 684544, 0, 658773, 2, 575220, 3,
               1);
    ByOne(1056323, 7883, 578551, 511616);
  }

  lemma Row9D()
    ensures IsPrime(1142821) && IsPrime(1236397) && IsPrime(1337629)
  {
    hide IsPrime, Gives, Power;
    SmallestPrimes();
    ByTrial(907); ByShortTrial(359); ByShortTrial(79);
    EightBits(1142821, 1084184, 692201, 983420, 3, 983420, 2, 989157, 0, 869147, 2, 457461, 3, 1);
    BySign(1142821, 907, 1084184, 791680);
    EightBits(1236397, 688049, 1197086, 762930, 1, 688049, 1, 977196, 2, 441333, 1, 42133, 3, 1);
    FourBits(1236397, 637766, 531284, 273694, 0, 1, 1, 637766, 3, 1);
    ByTwo(1236397, 359, 688049, 193028, 7, 637766, 478218);
    EightBits(1337629, 42739, 758536, 293660, 0, 1, 1, 42739, 0, 1099462, 3, 903336, 3, 1);
    FourBits(1337629, 546890, 178216, 886413, 1, 546890, 0, 279680, 1, 1);
    ByTwo(1337629, 79, 42739, 948121, 17, 546890, 859864);
  }

  lemma Row9E()
    ensures IsPrime(1447153) && IsPrime(1565659)
  {
    hide IsPrime, Gives, Power;
    ByShortTrial(73); ByShortTrial(59); ByTrial(86981);
    EightBits(1447153, 1279113, 592264, 1010709, 0, 1, 1, 1279113, 0, 1230026, 2, 1400156, 1, 1);
    FourBits(1447153, 797850, 1090931, 443582, 3, 443582, 2, 193751, 3, 1);
    ByTwo(1447153, 73, 1279113, 1407943, 59, 797850, 466904);
    SixteenBits(1565659, 207939, 1388777, 1360689, 1, 207939, 1, 1103736, 1, 978846, 0, 1368957, 3, 487935, 3,
                1108362, 0, 970575, 1, 414686, 1, 1);
    ByOne(1565659, 86981, 207939, 1272801);
  }

  lemma Row9F()
    ensures IsPrime(1693859) && IsPrime(1832561)
  {
    hide IsPrime, Gives, Power;
    ByTrial(1601); ByTrial(22907);
    TwelveBits(1693859, 661057, 1061557, 840639, 0, 1, 1, 661057, 2, 1035098, 1, 1248941, 0, 1399109, 0, 740267, 1,
               1);
    ByOne(1693859, 1601, 661057, 1358798);
    SixteenBits(1832561, 284826, 207367, 72112, 0, 1, 1, 284826, 1, 1783905, 2, 1729005, 1, 543965, 1, 1163102, 3,
                1384874, 2, 162937, 3, 1);
    ByOne(1832561, 22907, 284826, 273985);
  }

  lemma Row9G()
    ensures IsPrime(1982627) && IsPrime(2144977)
  {
    hide IsPrime, Gives, Power;
    SmallestPrimes();
    ByShortTrial(167); ByTrial(44687);
    EightBits(991313, 58664, 617473, 859052, 0, 1, 2, 617473, 2, 742951, 1, 192956, 3, 1);
    FourBits(991313, 581282, 718787, 333007, 0, 1, 1, 581282, 3, 1);
    ByTwo(991313, 167, 58664, 793483, 7, 581282, 564030);
    SixteenBits(1982627, 1693608, 1924224, 1473006, 0, 1, 3, 1473006, 3, 673162, 0, 909621, 2, 769969, 0, 735992, 0,
                914535, 1, 876456, 1, 107662);
    FourBits(1982627, 1693608, 1924224, 1473006, 61957, 107662, 0, 1585615, 1, 1);
    ByOne(1982627, 991313, 1693608, 1168249);
    SixteenBits(2144977, 984836, 1261875, 313056, 0, 1, 2, 1261875, 2, 1102020, 3, 1231839, 2, 1976873, 2, 7893, 0,
                1685447, 3, 980612, 3, 1);
    ByOne(2144977, 44687, 984836, 1934183);
  }

  lemma Row9H()
    ensures IsPrime(2320627)
  {
    hide IsPrime, Gives, Power;
    ByTrial(5023);
    TwelveBits(2320627, 1080860, 1333379, 795741, 1, 1080860, 0, 2235385, 3, 1898791, 2, 563653, 1, 2026371, 3,
               1399673, 3, 1);
    ByOne(2320627, 5023, 1080860, 1817741);
  }

  lemma Row10A()
    ensures IsPrime(2510653)
  {
    hide IsPrime, Gives, Power;
    ByShortTrial(317);
    EightBits(209221, 158278, 11965, 136999, 1, 158278, 0, 54061, 3, 139842, 3, 47680, 1, 1);
    BySign(209221, 317, 158278, 145667);
    SixteenBits(2510653, 2181945, 486756, 813789, 3, 813789, 0, 1404467, 3, 1108065, 0, 42878, 1, 618352, 1, 491443,
                0, 674067, 1, 1390792, 1, 1);
    ByOne(2510653, 209221, 2181945, 1720915);
  }

  lemma Row10B()
    ensures IsPrime(2716249) && IsPrime(2938679)
  {
    hide IsPrime, Gives, Power;
    ByShortTrial(47); ByShortTrial(43); ByTrial(13003);
    FourBits(113177, 48488, 60323, 108413, 2, 60323, 3, 82262, 3, 1);
    FourBits(113177, 71891, 88176, 17046, 2, 88176, 2, 77223, 3, 1);
    ByTwo(113177, 47, 48488, 49167, 43, 71891, 77404);
    SixteenBits(2716249, 1358154, 2038057, 1723328, 1, 1358154, 2, 2375201, 3, 1465986, 2, 1026881, 2, 2715869, 0,
                1432676, 1, 1443976, 2, 627667, 1, 1);
    ByOne(2716249, 113177, 1358154, 190614);
    TwelveBits(2938679, 2322213, 360876, 1970800, 3, 1970800, 0, 1926282, 2, 2930916, 3, 453827, 0, 1527489, 2,
               2387086, 3, 1);
    ByOne(2938679, 13003, 2322213, 926980);
  }

  lemma Row10C()
    ensures IsPrime(3179303)
  {
    hide IsPrime, Gives, Power;
    ByTrial(56773);
    SixteenBits(227093, 198445, 220895, 200671, 0, 1, 3, 200671, 1, 112780, 3, 157634, 1, 195989, 3, 41428, 0, 162366,
                1, 9575, 1, 1);
    ByOne(227093, 56773, 198445, 164234);
    SixteenBits(3179303, 2299851, 420888, 2737702, 3, 2737702, 1, 1547642, 3, 1607873, 1, 2552085, 3, 1163614, 0,
                1941149, 1, 2653520, 1, 1194619, 1, 1);
    ByOne(3179303, 227093, 2299851, 1404698);
  }

  lemma Row10D()
    ensures IsPrime(3439651) && IsPrime(3721303) && IsPrime(4026031)
  {
    hide IsPrime, Gives, Power;
    SmallestPrimes();
    ByTrial(997); ByShortTrial(31); ByShortTrial(19); ByTrial(2003);
    EightBits(3439651, 1601066, 2109653, 1123561, 3, 1123561, 3, 1395518, 2, 2343206, 1, 3337644, 1, 1);
    BySign(3439651, 997, 1601066, 1950841);
    FourBits(3721303, 2695486, 1619058, 1242847, 1, 2695486, 3, 2307460, 3, 1);
    FourBits(3721303, 3042541, 1934729, 1254081, 1, 3042541, 0, 3205710, 3, 1);
    FourBits(3721303, 3967, 851877, 452935, 0, 1, 3, 452935, 1, 1);
    ByThree(3721303, 31, 2695486, 539282, 19, 3042541, 1442089, 13, 3967, 3506432);
    TwelveBits(4026031, 1002017, 2301323, 3174838, 0, 1, 1, 1002017, 3, 1644891, 3, 1649575, 1, 2135779, 0, 3255449,
               3, 1);
    BySign(4026031, 2003, 1002017, 302731);
  }

  lemma Row10E()
    ensures IsPrime(4355707) && IsPrime(4712381)
  {
    hide IsPrime, Gives, Power;
    ByTrial(42703); ByTrial(12401);
    SixteenBits(4355707, 2392799, 1672748, 3465212, 0, 1, 2, 1672748, 2, 3601829, 1, 1832547, 2, 2007032, 3, 35209, 0,
                3147231, 3, 3389463, 3, 1);
    ByOne(4355707, 42703, 2392799, 2456635);
    TwelveBits(4712381, 580103, 3651018, 991547, 3, 991547, 0, 2988263, 0, 2337002, 1, 765221, 3, 1581306, 0, 719409,
               1, 1);
    ByOne(4712381, 12401, 580103, 2117526);
  }

  lemma Row10F()
    ensures IsPrime(5098259) && IsPrime(5515729)
  {
    hide IsPrime, Gives, Power;
    ByShortTrial(131); ByShortTrial(29); ByTrial(761); ByShortTrial(151);
    EightBits(5098259, 1061628, 2286290, 138882, 0, 1, 2, 2286290, 0, 189701, 0, 1743846, 3, 1);
    FourBits(5098259, 1919561, 3821320, 4149536, 1, 1919561, 3, 1450689, 1, 1);
    ByTwo(5098259, 131, 1061628, 4265270, 29, 1919561, 4403624);
    EightBits(5515729, 2109592, 1431356, 2357160, 2, 1431356, 3, 3651995, 3, 2596249, 2, 3949478, 1, 1);
    EightBits(5515729, 2821200, 71645, 984795, 0, 1, 2, 71645, 1, 4380667, 1, 1953200, 3, 1);
    ByTwo(5515729, 761, 2109592, 4186361, 151, 2821200, 439102);
  }

  lemma Row10G()
    ensures IsPrime(5967347) && IsPrime(6456007)
  {
    hide IsPrime, Gives, Power;
    SmallestPrimes();
    ByTrial(38749); ByShortTrial(137);
    SixteenBits(5967347, 4679468, 2252644, 254220, 0, 1, 2, 2252644, 1, 1631839, 1, 2357767, 3, 5295636, 1, 2037215,
                1, 3757756, 3, 463444, 1, 1);
    ByOne(5967347, 38749, 4679468, 1844133);
    EightBits(358667, 53886, 291631, 192128, 0, 1, 2, 291631, 0, 218263, 2, 15134, 1, 1);
    FourBits(358667, 274815, 208703, 274975, 0, 1, 1, 274815, 3, 1);
    ByTwo(358667, 137, 53886, 274014, 7, 274815, 16472);
    SixteenBits(6456007, 5362362, 161184, 3195455, 0, 1, 1, 5362362, 1, 2436267, 1, 4564849, 3, 5411056, 2, 132215, 1,
                4829225, 0, 377917, 0, 5763759);
    FourBits(6456007, 5362362, 161184, 3195455, 22416, 5763759, 2, 998889, 3, 1);
    ByOne(6456007, 358667, 5362362, 245083);
  }

  lemma Row10H()
    ensures IsPrime(6984629) && IsPrime(7556579)
  {
    hide IsPrime, Gives, Power;
    SmallestPrimes();
    ByTrial(691); ByTrial(16943);
    EightBits(6984629, 5603949, 4377204, 2069820, 2, 4377204, 2, 271055, 3, 184108, 0, 2734009, 3, 1);
    FourBits(6984629, 4258965, 1697272, 5983252, 0, 1, 1, 4258965, 3, 1);
    ByTwo(6984629, 691, 5603949, 5114729, 7, 4258965, 6363428);
    SixteenBits(7556579, 1993585, 5983754, 4345530, 0, 1, 1, 1993585, 0, 3883132, 0, 3222878, 2, 4086706, 0, 3208948,
                2, 5799606, 3, 609452, 3, 1);
    ByOne(7556579, 16943, 1993585, 5041741);
  }

  lemma Row10I()
    ensures IsPrime(8175383)
  {
    hide IsPrime, Gives, Power;
    ByShortTrial(347);
    EightBits(131861, 119371, 8537, 48419, 1, 119371, 1, 100629, 1, 12648, 2, 65037, 3, 1);
    BySign(131861, 347, 119371, 46913);
    SixteenBits(8175383, 6506348, 6003188, 5961262, 2, 6003188, 0, 891784, 0, 7528034, 0, 6943457, 3, 4770205, 0,
                6565916, 1, 4740894, 1, 1801742, 1, 1);
    ByOne(8175383, 131861, 6506348, 2046530);
  }

  lemma Row11A()
    ensures IsPrime(8844859) && IsPrime(9569143)
  {
    hide IsPrime, Gives, Power;
    ByShortTrial(131); ByShortTrial(31); ByTrial(1559);
    EightBits(8844859, 5577327, 3399239, 4068000, 0, 1, 2, 3399239, 0, 840812, 0, 496811, 3, 1);
    FourBits(8844859, 1341041, 1162647, 3240725, 1, 1341041, 3, 6860538, 3, 1);
    ByTwo(8844859, 131, 5577327, 7465102, 31, 1341041, 3038036);
    TwelveBits(9569143, 4582920, 6431131, 6107657, 0, 1, 1, 4582920, 2, 7319605, 0, 42620, 1, 8086827, 1, 5548175, 3,
               1);
    BySign(9569143, 1559, 4582920, 404993);
  }

  lemma Row11B()
    ensures IsPrime(10352717)
  {
    hide IsPrime, Gives, Power;
    ByTrial(29411);
    SixteenBits(235289, 69145, 193834, 119912, 0, 1, 1, 69145, 3, 110066, 0, 98775, 2, 31295, 3, 202146, 2, 135873, 0,
                15204, 3, 1);
    ByOne(235289, 29411, 69145, 155522);
    SixteenBits(10352717, 3240459, 26487, 6013603, 3, 6013603, 2, 8980146, 1, 8724930, 1, 6569516, 3, 1886457, 0,
                8883181, 1, 9885515, 2, 6744472, 1, 1);
    ByOne(10352717, 235289, 3240459, 3868222);
  }

  lemma Row11C()
    ensures IsPrime(11200489) && IsPrime(12117689)
  {
    hide IsPrime, Gives, Power;
    ByTrial(35899); ByTrial(5987);
    SixteenBits(11200489, 10337813, 4589860, 1204453, 0, 1, 2, 4589860, 0, 6536785, 3, 5522404, 0, 9628051, 0,
                11165221, 3, 642974, 2, 208157, 3, 1);
    ByOne(11200489, 35899, 10337813, 435905);
    TwelveBits(12117689, 360253, 1774819, 6126811, 1, 360253, 1, 2700413, 3, 5162260, 1, 7310125, 2, 7219267, 0,
               4103684, 3, 1);
    ByOne(12117689, 5987, 360253, 4769247);
  }

  lemma Row11D()
    ensures IsPrime(13109983)
  {
    hide IsPrime, Gives, Power;
    ByTrial(16553);
    SixteenBits(2184997, 1051532, 1815174, 677230, 0, 1, 1, 1051532, 0, 1349111, 0, 11845, 0, 2093964, 2, 479420, 2,
                2132722, 2, 375053, 1, 1);
    ByOne(2184997, 16553, 1051532, 1109659);
    SixteenBits(13109983, 10319962, 7454395, 7528582, 2, 7454395, 0, 6888687, 1, 9043769, 1, 3735621, 1, 13011097, 1,
                8927247, 3, 8240029, 0, 2408025, 2, 3468115);
    FourBits(13109983, 10319962, 7454395, 7528582, 136562, 3468115, 1, 10906716, 1, 1);
    ByOne(13109983, 2184997, 10319962, 11281963);
  }

  lemma Row11E()
    ensures IsPrime(14183539) && IsPrime(15345007)
  {
    hide IsPrime, Gives, Power;
    SmallestPrimes();
    ByTrial(1499); ByShortTrial(31);
    TwelveBits(14183539, 10583182, 7298725, 11446482, 0, 1, 1, 10583182, 1, 6088849, 3, 8596954, 1, 12185018, 2,
               3070544, 3, 1);
    FourBits(14183539, 6038988, 8144550, 1, 0, 1, 0, 1, 3, 1);
    ByTwo(14183539, 1499, 10583182, 712845, 3, 6038988, 7442696);
    FourBits(2557501, 1491999, 1915597, 60879, 1, 1491999, 3, 2374801, 3, 1);
    FourBits(2557501, 2408778, 1262081, 2198330, 0, 1, 2, 1262081, 3, 1);
    FourBits(2557501, 2223912, 2194910, 1916805, 0, 1, 1, 2223912, 1, 1);
    ByThree(2557501, 31, 1491999, 1096818, 11, 2408778, 165927, 5, 2223912, 2519329);
    SixteenBits(15345007, 10129619, 4137477, 15262513, 2, 4137477, 1, 673410, 3, 14052849, 0, 12813326, 0, 12829057,
                1, 11902460, 2, 5278350, 0, 6043162, 3, 4242066);
    FourBits(15345007, 10129619, 4137477, 15262513, 159843, 4242066, 3, 15145240, 1, 1);
    ByOne(15345007, 2557501, 10129619, 11741050);
  }

  lemma Row11F()
    ensures IsPrime(16601593) && IsPrime(17961079)
  {
    hide IsPrime, Gives, Power;
    SmallestPrimes();
    ByTrial(743); ByShortTrial(29); ByShortTrial(23);
    EightBits(16601593, 464045, 15100815, 8299340, 2, 15100815, 3, 15526284, 2, 5462301, 1, 12722477, 3, 1);
    FourBits(16601593, 4571536, 9449653, 8691883, 0, 1, 1, 4571536, 3, 1);
    ByTwo(16601593, 743, 464045, 13338938, 7, 4571536, 10308390);
    FourBits(176089, 140290, 168748, 75671, 1, 140290, 3, 56045, 1, 1);
    FourBits(176089, 127418, 117013, 106804, 1, 127418, 1, 67944, 3, 1);
    ByTwo(176089, 29, 140290, 79727, 23, 127418, 87093);
    SixteenBits(17961079, 14469284, 5297981, 16738209, 2, 5297981, 2, 15581543, 2, 5483552, 3, 15111277, 3, 17032457,
                3, 15577120, 1, 13031105, 2, 2893588, 1, 1);
    ByOne(17961079, 176089, 14469284, 5130168);
  }

  lemma Row11G()
    ensures IsPrime(19431899) && IsPrime(21023161)
  {
    hide IsPrime, Gives, Power;
    ByTrial(8761); ByTrial(4273);
    TwelveBits(19431899, 13506671, 15380320, 11536230, 2, 15380320, 0, 10024203, 2, 15909445, 0, 10802844, 3, 8000960,
               2, 6568853, 1, 1);
    ByOne(19431899, 8761, 13506671, 15877619);
    TwelveBits(21023161, 15806612, 3871001, 5323976, 1, 15806612, 0, 12322353, 0, 3880659, 2, 11818360, 3, 12429555,
               0, 18980667, 1, 1);
    BySign(21023161, 4273, 15806612, 10648265);
  }

  lemma Row11H()
    ensures IsPrime(22744717) && IsPrime(24607243)
  {
    hide IsPrime, Gives, Power;
    ByTrial(2551); ByShortTrial(211); ByShortTrial(31);
    TwelveBits(22744717, 17941439, 11940862, 4879113, 0, 1, 2, 11940862, 1, 11755587, 3, 5743643, 3, 11036017, 1,
               14561228, 3, 1);
    BySign(22744717, 2551, 17941439, 14534782);
    EightBits(24607243, 18121712, 16816827, 15137688, 0, 1, 3, 15137688, 1, 17948416, 0, 8290986, 3, 1);
    FourBits(24607243, 12908650, 8290755, 18094075, 1, 12908650, 3, 20856060, 3, 1);
    ByTwo(24607243, 211, 18121712, 5942433, 31, 12908650, 6153280);
  }

  lemma Row11I()
    ensures IsPrime(26622317) && IsPrime(28802401)
  {
    hide IsPrime, Gives, Power;
    SmallestPrimes();
    ByTrial(617); ByShortTrial(23); ByTrial(1091);
    EightBits(26622317, 24671714, 17140286, 9735162, 2, 17140286, 1, 19575221, 2, 15745984, 2, 12470970, 1, 1);
    FourBits(26622317, 6943247, 2253680, 4391236, 1, 6943247, 1, 20360802, 3, 1);
    ByTwo(26622317, 617, 24671714, 14923985, 23, 6943247, 20993804);
    TwelveBits(28802401, 17687866, 24030047, 22686191, 0, 1, 1, 17687866, 0, 8122571, 1, 214551, 0, 16919958, 0,
               3727887, 3, 1);
    FourBits(28802401, 3574538, 781824, 20233084, 0, 1, 1, 3574538, 1, 1);
    ByTwo(28802401, 1091, 17687866, 10954276, 5, 3574538, 22298331);
  }

  lemma Row12A()
    ensures IsPrime(31160981)
  {
    hide IsPrime, Gives, Power;
    ByTrial(3061);
    TwelveBits(31160981, 8992955, 23847409, 17364953, 0, 1, 2, 23847409, 3, 10883174, 3, 11833709, 3, 919929, 1,
               8504978, 1, 1);
    BySign(31160981, 3061, 8992955, 8316504);
  }

  lemma Row12B()
    ensures IsPrime(33712729)
  {
    hide IsPrime, Gives, Power;
    ByTrial(6689);
    TwelveBits(200671, 62255, 126002, 25120, 1, 62255, 2, 104776, 2, 151881, 0, 17829, 2, 42375, 0, 32494, 1, 1);
    ByOne(200671, 6689, 62255, 1789);
    SixteenBits(33712729, 31410351, 22372382, 32227433, 3, 32227433, 0, 7297231, 0, 33221418, 3, 8487974, 3, 3610514,
                3, 5857605, 1, 6987662, 3, 26423686, 3, 1);
    ByOne(33712729, 200671, 31410351, 16875905);
  }

  lemma Row12C()
    ensures IsPrime(36473443) && IsPrime(39460231)
  {
    hide IsPrime, Gives, Power;
    ByTrial(19801); ByTrial(8597);
    SixteenBits(36473443, 9592889, 1420917, 26308468, 0, 1, 1, 9592889, 0, 17683624, 3, 27156091, 1, 30754453, 1,
                18278335, 1, 25487522, 2, 34017772, 1, 1);
    ByOne(36473443, 19801, 9592889, 29279825);
    TwelveBits(39460231, 16000940, 27324914, 17410285, 2, 27324914, 0, 29965821, 1, 15628779, 2, 25688763, 1,
               29291127, 1, 10645673, 1, 1);
    ByOne(39460231, 8597, 16000940, 35587190);
  }

  lemma Row12D()
    ensures IsPrime(42691603) && IsPrime(46187573)
  {
    hide IsPrime, Gives, Power;
    SmallestPrimes();
    ByTrial(9041); ByShortTrial(359);
    TwelveBits(42691603, 37818332, 29172983, 10103746, 2, 29172983, 0, 19843791, 3, 37351018, 1, 20600650, 1,
               14752316, 0, 18666185, 1, 1);
    ByOne(42691603, 9041, 37818332, 14259645);
    EightBits(679229, 58440, 70188, 602018, 1, 58440, 1, 282523, 2, 333680, 1, 442083, 3, 1);
    FourBits(679229, 566633, 49931, 626786, 0, 1, 2, 49931, 3, 1);
    ByTwo(679229, 359, 58440, 551575, 11, 566633, 349951);
    SixteenBits(46187573, 6907166, 42872082, 29548781, 0, 1, 2, 42872082, 2, 23263830, 1, 18673517, 1, 6178355, 3,
                14858539, 1, 32407840, 0, 25307487, 3, 16228341);
    FourBits(46187573, 6907166, 42872082, 29548781, 42451, 16228341, 3, 17173504, 1, 1);
    ByOne(46187573, 679229, 6907166, 43222518);
  }

  lemma Row12E()
    ensures IsPrime(49969847)
  {
    hide IsPrime, Gives, Power;
    SmallestPrimes();
    ByShortTrial(71);
    EightBits(1086301, 864594, 1046201, 163316, 0, 1, 1, 864594, 0, 284520, 1, 1029262, 3, 1);
    FourBits(1086301, 290523, 198431, 947945, 1, 290523, 0, 795715, 1, 1);
    ByTwo(1086301, 71, 864594, 711989, 17, 290523, 245291);
    SixteenBits(49969847, 22092450, 13927301, 17381431, 1, 22092450, 0, 9100056, 0, 47631504, 2, 28929900, 1,
                43165318, 0, 15393875, 3, 23806345, 1, 2949420, 1, 5738712);
    FourBits(49969847, 22092450, 13927301, 17381431, 67893, 5738712, 3, 23653737, 1, 1);
    ByOne(49969847, 1086301, 22092450, 36617337);
  }

  lemma Row12F()
    ensures IsPrime(54061849) && IsPrime(58488943)
  {
    hide IsPrime, Gives, Power;
    ByTrial(1237); ByTrial(607); ByTrial(9719);
    TwelveBits(54061849, 30917693, 20896268, 2374392, 0, 1, 1, 30917693, 0, 30036858, 3, 22305135, 1, 33502754, 1,
               51286131, 1, 1);
    EightBits(54061849, 20809078, 49006556, 46279400, 2, 49006556, 1, 26001531, 1, 49801719, 3, 2698694, 3, 1);
    ByTwo(54061849, 1237, 30917693, 4578994, 607, 20809078, 17312502);
    TwelveBits(58488943, 5055679, 46593212, 24277629, 2, 46593212, 1, 16939956, 1, 41955874, 3, 5507568, 3, 25210296,
               1, 36382548, 3, 1);
    ByOne(58488943, 9719, 5055679, 57501590);
  }

  lemma Row12G()
    ensures IsPrime(63278561)
  {
    hide IsPrime, Gives, Power;
    ByTrial(13183);
    TwelveBits(395491, 117941, 265520, 321449, 3, 321449, 0, 210632, 3, 152455, 1, 114433, 3, 300161, 3, 52502, 3, 1);
    ByOne(395491, 13183, 117941, 295458);
    SixteenBits(63278561, 34534177, 50421476, 44624290, 0, 1, 1, 34534177, 2, 47497436, 0, 52555902, 0, 59626316, 2,
                61707106, 0, 32281331, 3, 23735918, 2, 31285949);
    FourBits(63278561, 34534177, 50421476, 44624290, 24718, 31285949, 0, 1966820, 3, 1);
    ByOne(63278561, 395491, 34534177, 38696215);
  }

  lemma Row12H()
    ensures IsPrime(68460391) && IsPrime(74066549)
  {
    hide IsPrime, Gives, Power;
    ByTrial(9391); ByTrial(2417); ByShortTrial(47);
    TwelveBits(68460391, 11094143, 1073701, 26701198, 2, 1073701, 1, 3890988, 0, 8687597, 2, 15325014, 2, 55182427, 3,
               6002648, 3, 1);
    ByOne(68460391, 9391, 11094143, 3131705);
    TwelveBits(74066549, 1080969, 20101937, 657882, 0, 1, 2, 20101937, 1, 67922556, 1, 47589394, 3, 72935020, 0,
               36390593, 1, 1);
    FourBits(74066549, 14092706, 21850817, 55515225, 2, 21850817, 3, 73548999, 3, 1);
    ByTwo(74066549, 2417, 1080969, 29070782, 47, 14092706, 69534541);
  }

  lemma Row12I()
    ensures IsPrime(80131819)
  {
    hide IsPrime, Gives, Power;
    ByTrial(5407);
    TwelveBits(1027331, 663680, 921488, 956878, 1, 663680, 1, 588481, 1, 276047, 0, 332403, 1, 416476, 3, 943622, 3,
               1);
    ByOne(1027331, 5407, 663680, 883432);
    SixteenBits(80131819, 15173416, 54449188, 51827811, 0, 1, 3, 51827811, 3, 32158085, 2, 4755162, 2, 45766306, 3,
                61847625, 1, 21330292, 0, 76857699, 0, 71824299);
    FourBits(80131819, 15173416, 54449188, 51827811, 64208, 71824299, 0, 50737326, 3, 1);
    ByOne(80131819, 1027331, 15173416, 12152189);
  }

  lemma Row12J()
    ensures IsPrime(86693767)
  {
    hide IsPrime, Gives, Power;
    ByTrial(7649);
    TwelveBits(86693767, 72969298, 27977022, 43867294, 1, 72969298, 3, 37315280, 1, 16956599, 3, 10948361, 2,
               21764215, 0, 36353909, 1, 1);
    BySign(86693767, 7649, 72969298, 43945002);
  }

  lemma Row12K()
    ensures IsPrime(93793069)
  {
    hide IsPrime, Gives, Power;
    ByTrial(6481);
    TwelveBits(2605363, 1587945, 7831, 2405059, 1, 1587945, 2, 1707579, 1, 322922, 1, 1145037, 1, 1557245, 0, 848305,
               1, 1);
    ByOne(2605363, 6481, 1587945, 911248);
    SixteenBits(93793069, 41185684, 64032403, 45694293, 2, 64032403, 1, 19844958, 3, 11485090, 3, 69241796, 0,
                32140263, 0, 79610313, 1, 75710068, 0, 54046347, 3, 66629391);
    FourBits(93793069, 41185684, 64032403, 45694293, 162835, 66629391, 0, 43380625, 3, 1);
    ByOne(93793069, 2605363, 41185684, 62409028);
  }

  lemma Row12L()
    ensures IsPrime(101473717)
  {
    hide IsPrime, Gives, Power;
    ByTrial(44273);
    SixteenBits(101473717, 92887129, 9867865, 74290116, 0, 1, 2, 9867865, 2, 100815002, 3, 88900256, 0, 59261309, 3,
                41825780, 3, 94713916, 0, 51919084, 1, 1);
    ByOne(101473717, 44273, 92887129, 43161259);
  }

  lemma Row13A()
    ensures IsPrime(109783337)
  {
    hide IsPrime, Gives, Power;
    ByTrial(5737);
    TwelveBits(1055609, 561196, 5266, 608545, 1, 561196, 1, 824655, 2, 134145, 1, 590241, 2, 215959, 2, 955141, 1, 1);
    ByOne(1055609, 5737, 561196, 857626);
    SixteenBits(109783337, 107868229, 106712505, 101133440, 1, 107868229, 0, 59657272, 0, 56628866, 0, 42163333, 1,
                1204505, 2, 19210184, 3, 73276001, 1, 41750263, 3, 19999422);
    FourBits(109783337, 107868229, 106712505, 101133440, 65975, 19999422, 2, 54853731, 1, 1);
    ByOne(109783337, 1055609, 107868229, 107330292);
  }

  lemma Row13B()
    ensures IsPrime(118773397) && IsPrime(128499677)
  {
    hide IsPrime, Gives, Power;
    ByShortTrial(113); ByShortTrial(97); ByTrial(10099);
    EightBits(118773397, 98634418, 105865013, 83591493, 0, 1, 1, 98634418, 3, 94930594, 0, 85076683, 1, 1);
    EightBits(118773397, 38342640, 56620517, 41717488, 0, 1, 1, 38342640, 2, 107502787, 0, 72760258, 1, 1);
    ByTwo(118773397, 113, 98634418, 10516360, 97, 38342640, 46487214);
    TwelveBits(128499677, 122689739, 56412068, 16126031, 2, 56412068, 1, 68595637, 3, 93601872, 1, 108565409, 3,
               59933554, 0, 15240621, 3, 1);
    BySign(128499677, 10099, 122689739, 30507161);
  }

  lemma Row13C()
    ensures IsPrime(139022417) && IsPrime(150406843)
  {
    hide IsPrime, Gives, Power;
    ByTrial(10957); ByTrial(2287); ByShortTrial(97);
    TwelveBits(139022417, 75034188, 81243012, 19536900, 2, 81243012, 2, 123151022, 2, 33188539, 3, 105121894, 0,
               8818632, 3, 110633927, 1, 1);
    BySign(139022417, 10957, 75034188, 56944438);
    TwelveBits(150406843, 4765398, 141721735, 56322698, 0, 1, 2, 141721735, 0, 76783140, 3, 62520077, 2, 54430232, 3,
               48996039, 3, 1);
    EightBits(150406843, 2002945, 137356529, 144070240, 0, 1, 1, 2002945, 2, 77179172, 0, 17047188, 1, 1);
    ByTwo(150406843, 2287, 4765398, 140637967, 97, 2002945, 44628978);
  }

  lemma Row13D()
    ensures IsPrime(162723577) && IsPrime(176048909)
  {
    hide IsPrime, Gives, Power;
    ByShortTrial(197); ByShortTrial(127); ByTrial(11411);
    EightBits(162723577, 5080097, 77111517, 81297583, 0, 1, 3, 81297583, 0, 79909565, 1, 39290287, 1, 1);
    EightBits(162723577, 90824456, 132818872, 54347125, 0, 1, 1, 90824456, 3, 162001769, 3, 135519741, 3, 1);
    ByTwo(162723577, 197, 5080097, 148074856, 127, 90824456, 6670913);
    TwelveBits(176048909, 80124236, 20970108, 102010035, 2, 20970108, 3, 159181109, 0, 32532757, 2, 153354090, 1,
               160857886, 0, 158769096, 3, 1);
    BySign(176048909, 11411, 80124236, 123022891);
  }

  lemma Row13E()
    ensures IsPrime(190465427) && IsPrime(206062531)
  {
    hide IsPrime, Gives, Power;
    ByTrial(739); ByShortTrial(31); ByTrial(46099);
    EightBits(190465427, 76131574, 100973314, 125768549, 2, 100973314, 3, 72467335, 2, 56946135, 0, 124020429, 3, 1);
    FourBits(190465427, 147872776, 57578394, 17242784, 1, 147872776, 3, 54860069, 3, 1);
    ByTwo(190465427, 739, 76131574, 146048216, 31, 147872776, 130712657);
    SixteenBits(206062531, 100604009, 91808604, 202397059, 0, 1, 2, 91808604, 3, 97854862, 1, 199860435, 0, 20145512,
                0, 148765233, 1, 146156700, 0, 135325772, 3, 1);
    ByOne(206062531, 46099, 100604009, 62198347);
  }

  lemma Row13F()
    ensures IsPrime(222936881)
  {
    hide IsPrime, Gives, Power;
    ByTrial(991);
    EightBits(146669, 118753, 50659, 132523, 3, 132523, 3, 100079, 1, 76604, 3, 122607, 3, 1);
    ByOne(146669, 991, 118753, 15052);
    SixteenBits(222936881, 207514070, 148085009, 26760727, 2, 148085009, 0, 97834149, 3, 202066297, 3, 113128782, 0,
                167901263, 3, 89610506, 2, 138943004, 3, 168932493, 1, 1);
    ByOne(222936881, 146669, 207514070, 27921367);
  }

  lemma Row13G()
    ensures IsPrime(241193053)
  {
    hide IsPrime, Gives, Power;
    ByTrial(653);
    EightBits(248141, 33151, 220453, 236812, 2, 220453, 2, 190319, 0, 215544, 3, 118753, 1, 1);
    ByOne(248141, 653, 33151, 15637);
    SixteenBits(241193053, 121308210, 168887662, 104718328, 3, 104718328, 3, 129768700, 0, 106960525, 2, 10113880, 1,
                111839497, 1, 28233082, 0, 193812032, 3, 13356660, 1, 1);
    ByOne(241193053, 248141, 121308210, 64780245);
  }

  lemma Row13H()
    ensures IsPrime(260944219)
  {
    hide IsPrime, Gives, Power;
    ByTrial(63863);
    SixteenBits(260944219, 63683246, 171975585, 227846125, 0, 1, 3, 227846125, 3, 74611659, 2, 22974207, 1, 188907400,
                1, 240099351, 3, 91478071, 1, 53148884, 3, 1);
    ByOne(260944219, 63863, 63683246, 229116551);
  }

  lemma Row13I()
    ensures IsPrime(282312799)
  {
    hide IsPrime, Gives, Power;
    ByTrial(757);
    EightBits(1147613, 670724, 650111, 310110, 2, 650111, 3, 123563, 3, 502447, 1, 728306, 1, 1);
    BySign(1147613, 757, 670724, 484556);
    SixteenBits(282312799, 147700473, 93132895, 205998223, 1, 147700473, 0, 41524875, 1, 252782345, 2, 140921836, 0,
                24921049, 0, 21068321, 2, 203630147, 3, 108155846, 1, 280532282);
    FourBits(282312799, 147700473, 93132895, 205998223, 71725, 280532282, 3, 94974311, 1, 1);
    ByOne(282312799, 1147613, 147700473, 184854315);
  }

  lemma Row13J()
    ensures IsPrime(305431229)
  {
    hide IsPrime, Gives, Power;
    ByTrial(47339);
    SixteenBits(305431229, 93941875, 9117158, 300610175, 0, 1, 2, 9117158, 3, 78927145, 2, 114224473, 0, 172553590, 3,
                201131879, 2, 35771694, 2, 247413295, 3, 1);
    ByOne(305431229, 47339, 93941875, 269418546);
  }

  lemma Row13K()
    ensures IsPrime(330442829)
  {
    hide IsPrime, Gives, Power;
    ByTrial(1583);
    TwelveBits(307103, 24395, 257514, 262165, 0, 1, 1, 24395, 2, 221619, 0, 196817, 2, 50634, 3, 111238, 3, 1);
    ByOne(307103, 1583, 24395, 153904);
    SixteenBits(330442829, 29170620, 90012355, 300748992, 0, 1, 1, 29170620, 0, 169531786, 2, 315233312, 2, 89277817,
                3, 152255039, 3, 144824305, 2, 161784735, 1, 188851656);
    FourBits(330442829, 29170620, 90012355, 300748992, 19193, 188851656, 3, 126631802, 3, 1);
    ByOne(330442829, 307103, 29170620, 64566411);
  }

  lemma Row13L()
    ensures IsPrime(357502601)
  {
    hide IsPrime, Gives, Power;
    SmallestPrimes();
    ByTrial(1511);
    TwelveBits(357502601, 13135088, 139027745, 146475909, 0, 1, 1, 13135088, 1, 228327780, 3, 313311797, 2, 193308098,
               1, 232657135, 3, 1);
    FourBits(357502601, 41289311, 279580465, 143160623, 0, 1, 3, 143160623, 1, 1);
    ByTwo(357502601, 1511, 13135088, 17031273, 13, 41289311, 23914882);
  }

  lemma Row14A()
    ensures IsPrime(386778277)
  {
    hide IsPrime, Gives, Power;
    ByTrial(13007);
    TwelveBits(182099, 144162, 87572, 177291, 3, 177291, 0, 119498, 2, 12639, 3, 105868, 0, 102504, 3, 131266, 3, 1);
    ByOne(182099, 13007, 144162, 21422);
    SixteenBits(386778277, 270482264, 25133912, 188712962, 2, 25133912, 3, 265740128, 0, 239204757, 1, 324404046, 3,
                207241587, 1, 276577573, 1, 232934684, 0, 264113023, 3, 1);
    ByOne(386778277, 182099, 270482264, 299312735);
  }

  lemma Row14B()
    ensures IsPrime(418451333)
  {
    hide IsPrime, Gives, Power;
    ByTrial(1889);
    TwelveBits(8047141, 4850498, 1271996, 6672180, 0, 1, 1, 4850498, 3, 255933, 1, 6723614, 2, 2335595, 0, 305045, 1,
               1);
    BySign(8047141, 1889, 4850498, 2462717);
    SixteenBits(418451333, 232150716, 72221270, 261705090, 0, 1, 1, 232150716, 3, 330030663, 2, 62990999, 2,
                267508692, 3, 130771781, 0, 100183203, 2, 12582408, 2, 38416513);
    EightBits(418451333, 232150716, 72221270, 261705090, 31434, 38416513, 0, 330985629, 2, 213548074, 1, 256518622, 1,
              1);
    ByOne(418451333, 8047141, 232150716, 55259042);
  }

  lemma Row14C()
    ensures IsPrime(452718089) && IsPrime(489790921)
  {
    hide IsPrime, Gives, Power;
    ByTrial(25073); ByShortTrial(181);
    SixteenBits(452718089, 219091644, 451867049, 266707691, 0, 1, 1, 219091644, 2, 432120875, 0, 62199623, 1,
                351711817, 3, 390247438, 3, 349224384, 0, 253529309, 1, 1);
    ByOne(452718089, 25073, 219091644, 398877296);
    EightBits(99551, 76204, 40684, 66294, 0, 1, 2, 40684, 3, 77896, 1, 92775, 1, 1);
    BySign(99551, 181, 76204, 95300);
    SixteenBits(489790921, 17846696, 379263010, 458975452, 1, 17846696, 2, 206200949, 0, 290806667, 1, 347001585, 0,
                113346061, 3, 326266565, 1, 340620549, 3, 354611892, 3, 1);
    ByOne(489790921, 99551, 17846696, 22966913);
  }

  lemma Row14D()
    ensures IsPrime(529899637)
  {
    hide IsPrime, Gives, Power;
    ByTrial(20219);
    SixteenBits(6308329, 3703867, 2302324, 3677972, 0, 1, 1, 3703867, 0, 2500475, 3, 5291058, 2, 1308705, 3, 5212229,
                3, 2812384, 2, 5222358, 3, 1);
    ByOne(6308329, 20219, 3703867, 1963036);
    SixteenBits(529899637, 181028042, 157052263, 528506220, 0, 1, 1, 181028042, 2, 58665921, 0, 31472340, 0,
                241176512, 1, 106823487, 0, 263664487, 0, 201442433, 1, 163724402);
    EightBits(529899637, 181028042, 157052263, 528506220, 24641, 163724402, 3, 75965556, 2, 46104221, 2, 136919486, 1,
              1);
    ByOne(529899637, 6308329, 181028042, 376874692);
  }

  lemma Row14E()
    ensures IsPrime(573292817)
  {
    hide IsPrime, Gives, Power;
    ByShortTrial(269); ByShortTrial(37);
    EightBits(35830801, 21651690, 26877306, 22619432, 1, 21651690, 0, 33360103, 0, 25815550, 3, 23786213, 1, 1);
    FourBits(35830801, 13435909, 13288056, 5103721, 2, 13288056, 1, 24654247, 1, 1);
    ByTwo(35830801, 269, 21651690, 31231660, 37, 13435909, 33439292);
    SixteenBits(573292817, 342751498, 334299455, 12018650, 2, 334299455, 0, 46438951, 2, 344805468, 0, 279675564, 2,
                464004963, 2, 467316611, 3, 129619740, 3, 116218185, 0, 226885161);
    EightBits(573292817, 342751498, 334299455, 12018650, 139964, 226885161, 0, 39099431, 1, 562136173, 0, 299435882,
              1, 1);
    ByOne(573292817, 35830801, 342751498, 317075398);
  }

  lemma Row14F()
    ensures IsPrime(620239453)
  {
    hide IsPrime, Gives, Power;
    ByTrial(2657); ByTrial(397);
    TwelveBits(620239453, 494807460, 489641978, 173356932, 0, 1, 2, 489641978, 2, 557963284, 1, 211187613, 2,
               41436553, 0, 240772307, 1, 1);
    EightBits(620239453, 224344932, 91561999, 28200379, 1, 224344932, 2, 272938289, 0, 386923109, 3, 235458085, 1, 1);
    ByTwo(620239453, 2657, 494807460, 233670394, 397, 224344932, 529082862);
  }

  lemma Row14G()
    ensures IsPrime(671030513) && IsPrime(725980837)
  {
    hide IsPrime, Gives, Power;
    SmallestPrimes();
    ByTrial(38231); ByTrial(12329);
    SixteenBits(671030513, 161527019, 327963959, 634543334, 0, 1, 2, 327963959, 1, 66664289, 1, 472767630, 1,
                130104069, 1, 376070939, 1, 644393672, 1, 109815963, 3, 1);
    ByOne(671030513, 38231, 161527019, 196133751);
    TwelveBits(725980837, 360078770, 237258694, 404758661, 3, 404758661, 0, 411022159, 0, 192113339, 0, 264286741, 2,
               300926630, 2, 381462864, 1, 1);
    FourBits(725980837, 480056647, 245924189, 1, 0, 1, 0, 1, 3, 1);
    ByTwo(725980837, 12329, 360078770, 291581845, 3, 480056647, 565961954);
  }

  lemma Row14H()
    ensures IsPrime(785430967)
  {
    hide IsPrime, Gives, Power;
    ByTrial(23719);
    SixteenBits(785430967, 339551741, 167611977, 454120598, 0, 1, 1, 339551741, 1, 620571540, 3, 517291580, 0,
                362098827, 2, 196023917, 2, 395889873, 1, 296722634, 3, 1);
    BySign(785430967, 23719, 339551741, 390820436);
  }

  lemma Row14I()
    ensures IsPrime(849749479)
  {
    hide IsPrime, Gives, Power;
    ByTrial(439); ByShortTrial(47);
    EightBits(141624913, 129735830, 133912109, 1248796, 1, 129735830, 2, 59532573, 3, 130309336, 1, 13331525, 3, 1);
    FourBits(141624913, 65179511, 110841396, 83142318, 2, 110841396, 3, 31646704, 3, 1);
    ByTwo(141624913, 439, 129735830, 22553343, 47, 65179511, 126978299);
    SixteenBits(849749479, 146564628, 61116103, 666268337, 0, 1, 2, 61116103, 0, 543273974, 1, 832267929, 3,
                194122679, 0, 439709596, 1, 834762832, 0, 618131292, 0, 353787917);
    TwelveBits(849749479, 146564628, 61116103, 666268337, 34576, 353787917, 1, 497857878, 2, 765403336, 1, 844859719,
               1, 819175361, 0, 19709684, 1, 1);
    ByOne(849749479, 141624913, 146564628, 712159356);
  }

  lemma Row14J()
    ensures IsPrime(919334987)
  {
    hide IsPrime, Gives, Power;
    ByTrial(86599);
    SixteenBits(459667493, 178507121, 396795906, 396630249, 1, 178507121, 1, 284410200, 1, 112096873, 0, 65057433, 2,
                57279131, 1, 280969865, 0, 414709429, 1, 250402230, 3, 1);
    ByOne(459667493, 86599, 178507121, 389381814);
    SixteenBits(919334987, 22541694, 489054892, 210200417, 1, 22541694, 2, 417332682, 3, 893566441, 1, 373314230, 2,
                501053438, 1, 683008617, 1, 542521372, 3, 9223240, 3, 254425740);
    TwelveBits(919334987, 22541694, 489054892, 210200417, 112223, 254425740, 2, 50151582, 0, 254262052, 0, 707733112,
               2, 256424564, 1, 78888577, 1, 1);
    ByOne(919334987, 459667493, 22541694, 235676785);
  }

  lemma Row14K()
    ensures IsPrime(994618837)
  {
    hide IsPrime, Gives, Power;
    ByTrial(9491); ByShortTrial(41);
    TwelveBits(994618837, 854686724, 849469011, 637196968, 2, 849469011, 1, 501305491, 1, 160889909, 0, 806739514, 1,
               744146295, 0, 919626133, 3, 1);
    FourBits(994618837, 315324022, 529724498, 48160888, 2, 529724498, 2, 349204257, 1, 1);
    ByTwo(994618837, 9491, 854686724, 213412402, 41, 315324022, 222064781);
  }

  lemma Row14L()
    ensures IsPrime(1076067617)
  {
    hide IsPrime, Gives, Power;
    ByTrial(3109);
    TwelveBits(198977, 75050, 60561, 70416, 0, 1, 3, 70416, 0, 58325, 0, 134420, 2, 130325, 1, 90276, 1, 1);
    ByOne(198977, 3109, 75050, 3277);
    SixteenBits(1076067617, 24903559, 1060146616, 438552495, 3, 438552495, 0, 921631824, 0, 79852899, 2, 96126115, 1,
                428666894, 1, 220101195, 0, 962039436, 0, 548156393, 1, 1);
    ByOne(1076067617, 198977, 24903559, 1028918003);
  }

  lemma Row14M()
    ensures IsPrime(1164186217) && IsPrime(1259520799)
  {
    hide IsPrime, Gives, Power;
    SmallestPrimes();
    ByTrial(2633); ByShortTrial(23); ByShortTrial(149);
    TwelveBits(1164186217, 606576793, 554839733, 469600919, 0, 1, 2, 554839733, 2, 1055592344, 1, 468582827, 0,
               1095724511, 2, 205591663, 1, 1);
    FourBits(1164186217, 557572360, 724645925, 243439980, 1, 557572360, 1, 154710786, 3, 1);
    ByTwo(1164186217, 2633, 606576793, 889936793, 23, 557572360, 1146968206);
    EightBits(141551, 111416, 68560, 22796, 0, 1, 2, 68560, 1, 22172, 1, 82298, 1, 1);
    FourBits(141551, 130219, 27467, 14605, 0, 1, 1, 130219, 1, 1);
    ByTwo(141551, 149, 111416, 119564, 5, 130219, 49511);
    SixteenBits(1259520799, 672765764, 242218445, 191349364, 2, 242218445, 0, 987594703, 2, 840775058, 2, 292266922,
                0, 270368664, 3, 914844667, 2, 359420712, 3, 203564875, 3, 1);
    ByOne(1259520799, 141551, 672765764, 875089086);
  }

  lemma Row15A()
    ensures IsPrime(1362662261)
  {
    hide IsPrime, Gives, Power;
    ByTrial(3301);
    TwelveBits(158449, 113268, 24294, 107458, 0, 1, 3, 107458, 0, 157479, 3, 102355, 2, 63788, 1, 148790, 1, 1);
    ByOne(158449, 3301, 113268, 107918);
    SixteenBits(1584491, 1494692, 385702, 1319362, 2, 385702, 1, 425611, 2, 1113500, 2, 122901, 2, 661418, 3, 114395,
                3, 1256684, 0, 1556158, 1, 1);
    ByOne(1584491, 158449, 1494692, 585997);
    SixteenBits(1362662261, 1187080736, 928461625, 295088394, 1, 1187080736, 2, 333432684, 0, 94398863, 0, 964267906,
                2, 325968305, 3, 687113162, 1, 428850210, 1, 1035344982, 2, 349535248);
    FourBits(1362662261, 1187080736, 928461625, 295088394, 99030, 349535248, 2, 697623072, 3, 1);
    ByOne(1362662261, 1584491, 1187080736, 1161567554);
  }

  lemma Row15B()
    ensures IsPrime(1474249943)
  {
    hide IsPrime, Gives, Power;
    ByTrial(67213);
    SixteenBits(1474249943, 55834641, 710383304, 829291846, 1, 55834641, 0, 1255142089, 0, 820346706, 1, 715629386, 2,
                1255630882, 2, 855072237, 0, 1093763247, 3, 43662500, 1, 1);
    ByOne(1474249943, 67213, 55834641, 925364232);
  }

  lemma Row15C()
    ensures IsPrime(1594975441)
  {
    hide IsPrime, Gives, Power;
    ByTrial(1801);
    TwelveBits(162091, 141771, 56623, 104649, 0, 1, 1, 141771, 3, 109003, 0, 154469, 0, 91443, 2, 7567, 1, 1);
    ByOne(162091, 1801, 141771, 121993);
    SixteenBits(1594975441, 782529791, 886245953, 229335080, 2, 886245953, 1, 1195368445, 3, 1046682873, 2,
                1594373566, 1, 1481456043, 0, 118411049, 2, 140295976, 2, 326604785, 3, 1);
    ByOne(1594975441, 162091, 782529791, 77220021);
  }

  lemma Row15D()
    ensures IsPrime(1725587117)
  {
    hide IsPrime, Gives, Power;
    SmallestPrimes();
    ByTrial(7817);
    TwelveBits(1725587117, 1123936762, 1720844140, 26901233, 1, 1123936762, 3, 1658247065, 2, 878732137, 2,
               1076194040, 0, 897031273, 2, 102107867, 1, 1);
    FourBits(1725587117, 1093479292, 1529389675, 862329235, 0, 1, 2, 1529389675, 3, 1);
    ByTwo(1725587117, 7817, 1123936762, 1079372063, 11, 1093479292, 1715539921);
  }

  lemma Row15E()
    ensures IsPrime(1866894511)
  {
    hide IsPrime, Gives, Power;
    ByTrial(2801); ByTrial(1709);
    TwelveBits(1866894511, 1158988742, 185498366, 762034287, 0, 1, 2, 185498366, 2, 35235902, 3, 1465704099, 3,
               648799048, 0, 72306715, 1, 1);
    TwelveBits(1866894511, 48673338, 963814222, 168451235, 0, 1, 1, 48673338, 2, 258548989, 2, 50938724, 2, 619139730,
               3, 1397206855, 1, 1);
    ByTwo(1866894511, 2801, 1158988742, 566034851, 1709, 48673338, 225632199);
  }

  lemma Row15F()
    ensures IsPrime(2019773507)
  {
    hide IsPrime, Gives, Power;
    SmallestPrimes();
    ByShortTrial(53);
    FourBits(145433, 128529, 114804, 11136, 3, 11136, 1, 55696, 1, 1);
    FourBits(145433, 57811, 61381, 77224, 0, 1, 1, 57811, 3, 1);
    FourBits(145433, 145432, 1, 145432, 0, 1, 0, 1, 2, 1);
    ByThree(145433, 53, 128529, 45957, 7, 57811, 109315, 2, 145432, 72716);
    SixteenBits(1009886753, 621249692, 405475668, 423507178, 2, 405475668, 0, 38053280, 3, 457273353, 2, 268605774, 0,
                238509552, 0, 572425486, 1, 474085145, 2, 777986674, 1, 1);
    ByOne(1009886753, 145433, 621249692, 481661886);
    SixteenBits(2019773507, 1741312493, 1384535240, 377712499, 3, 377712499, 3, 1677118382, 0, 318039086, 0,
                315414227, 3, 1614412728, 0, 385155309, 1, 1193015946, 2, 1993058028, 2, 158639945);
    TwelveBits(2019773507, 1741312493, 1384535240, 377712499, 246554, 158639945, 1, 108130290, 2, 1329712506, 0,
               39191675, 2, 1325094559, 0, 382715988, 1, 1);
    ByOne(2019773507, 1009886753, 1741312493, 1680573367);
  }

  lemma Row15G()
    ensures IsPrime(2185171673)
  {
    hide IsPrime, Gives, Power;
    ByTrial(5297);
    TwelveBits(201287, 114921, 194884, 66109, 1, 114921, 1, 10634, 0, 104901, 2, 20766, 3, 190622, 0, 53164, 1, 1);
    ByOne(201287, 5297, 114921, 178827);
    SixteenBits(2185171673, 1723942650, 104312866, 927007886, 3, 927007886, 0, 1128382365, 1, 1253630118, 0,
                1699537485, 2, 316358788, 1, 1152482877, 0, 1999505056, 1, 2023235630, 3, 1);
    ByOne(2185171673, 201287, 1723942650, 1020024173);
  }

  lemma Row15H()
    ensures IsPrime(2364114217) && IsPrime(2557710269)
  {
    hide IsPrime, Gives, Power;
    SmallestPrimes();
    ByTrial(20173); ByTrial(45959);
    SixteenBits(2364114217, 48806929, 1735762803, 1442472814, 0, 1, 1, 48806929, 0, 1694706315, 3, 1114399760, 2,
                1272283750, 3, 1225215058, 0, 1012039128, 3, 327398100, 1, 1);
    FourBits(2364114217, 1127525960, 1236588256, 1, 0, 1, 0, 1, 3, 1);
    ByTwo(2364114217, 20173, 48806929, 1796480629, 3, 1127525960, 412196085);
    SixteenBits(2557710269, 314203478, 2288225411, 650037484, 0, 1, 2, 2288225411, 3, 53300581, 0, 306796150, 3,
                2315949935, 2, 1446815655, 0, 367374843, 1, 2081283370, 3, 1);
    BySign(2557710269, 45959, 314203478, 2231639039);
  }

  lemma Prime106429223()
    ensures IsPrime(106429223)
  {
    hide IsPrime, Gives, Power;
    ByTrial(21881);
    SixteenBits(2800769, 2256597, 659983, 1140563, 0, 1, 1, 2256597, 1, 709375, 1, 2272239, 1, 2211153, 1, 2220740, 3,
                2130195, 2, 1213634, 1, 1);
    ByOne(2800769, 21881, 2256597, 1035111);
    SixteenBits(106429223, 48071928, 90419093, 891156, 2, 90419093, 2, 76276880, 2, 43756035, 2, 51417369, 3,
                29775266, 3, 10597952, 0, 99302160, 2, 3740442, 0, 26052404);
    FourBits(106429223, 48071928, 90419093, 891156, 175048, 26052404, 0, 80707154, 1, 1);
    ByOne(106429223, 2800769, 48071928, 40090600);
  }

  lemma Row15I()
    ensures IsPrime(2767159799)
  {
    hide IsPrime, Gives, Power;
    Prime106429223();
    SixteenBits(2767159799, 1980419454, 2309188971, 607462659, 0, 1, 1, 1980419454, 2, 612155539, 1, 1140153339, 1,
                336763719, 1, 2408433841, 3, 1922133244, 3, 437760271, 3, 1629683270);
    TwelveBits(2767159799, 1980419454, 2309188971, 607462659, 25983, 1629683270, 2, 29083498, 3, 1138076435, 0,
               2414711620, 2, 479246251, 1, 1382362176, 3, 1);
    ByOne(2767159799, 106429223, 1980419454, 1367786379);
  }

  lemma Row15J()
    ensures IsPrime(2993761039)
  {
    hide IsPrime, Gives, Power;
    ByTrial(577); ByShortTrial(179);
    EightBits(2993761039, 1181051978, 2277642475, 1510869185, 2, 2277642475, 1, 2781812091, 0, 2726008071, 0,
              2802456002, 1, 1);
    EightBits(2993761039, 1903024567, 56188792, 553040707, 0, 1, 2, 56188792, 3, 959268024, 0, 2502672563, 3, 1);
    ByTwo(2993761039, 577, 1181051978, 108459113, 179, 1903024567, 1504832466);
  }

  lemma Row15K()
    ensures IsPrime(3238918481)
  {
    hide IsPrime, Gives, Power;
    ByTrial(5441); ByTrial(1063);
    TwelveBits(3238918481, 2139688394, 1459823249, 2299441546, 1, 2139688394, 1, 2901483063, 1, 2472186369, 1,
               2031431121, 0, 2058139815, 0, 2939216108, 1, 1);
    TwelveBits(3238918481, 1435406217, 3104504956, 1656091168, 0, 1, 1, 1435406217, 0, 718651930, 0, 53757003, 2,
               3111437830, 1, 1195205274, 3, 1);
    ByTwo(3238918481, 5441, 2139688394, 3000899308, 1063, 1435406217, 2810858223);
  }

  lemma Row15L()
    ensures IsPrime(3504151727)
  {
    hide IsPrime, Gives, Power;
    ByTrial(877); ByShortTrial(67);
    EightBits(1752075863, 1370578308, 1432963551, 330836552, 3, 330836552, 1, 48277592, 2, 947768579, 3, 875114284, 1,
              1);
    EightBits(1752075863, 203247831, 13466829, 359064121, 0, 1, 1, 203247831, 0, 1614887837, 0, 24522558, 3, 1);
    ByTwo(1752075863, 877, 1370578308, 1449893054, 67, 203247831, 1602349085);
    SixteenBits(3504151727, 698790054, 1678904136, 2518240149, 0, 1, 1, 698790054, 2, 2169860836, 2, 60990167, 0,
                3131677448, 1, 3162581817, 2, 2765345276, 3, 3273035662, 2, 1622806149);
    SixteenBits(3504151727, 698790054, 1678904136, 2518240149, 26734, 1622806149, 2, 1402668948, 0, 1764339898, 3,
                355911776, 2, 711966755, 1, 1823519689, 1, 1498237031, 1, 30495775, 3, 1);
    ByOne(3504151727, 1752075863, 698790054, 2529522643);
  }

  lemma Row15M()
    ensures IsPrime(3791104843)
  {
    hide IsPrime, Gives, Power;
    SmallestPrimes();
    ByTrial(10853);
    TwelveBits(3791104843, 2452762657, 2713970353, 227716351, 2, 2713970353, 2, 2634429330, 2, 72954849, 1, 593808325,
               2, 3140313448, 1, 2341726449, 1, 1);
    FourBits(3791104843, 1725884028, 559125382, 2995569967, 0, 1, 1, 1725884028, 3, 1);
    ByTwo(3791104843, 10853, 2452762657, 809182518, 7, 1725884028, 1393887313);
  }

  lemma Row15N()
    ensures IsPrime(4101556399)
  {
    hide IsPrime, Gives, Power;
    ByShortTrial(73); ByShortTrial(47);
    EightBits(2333081, 360352, 1274687, 1355625, 0, 1, 1, 360352, 0, 1680220, 2, 472172, 1, 1);
    FourBits(2333081, 573005, 240895, 1968272, 2, 240895, 3, 1742082, 3, 1);
    ByTwo(2333081, 73, 360352, 2231775, 47, 573005, 664671);
    SixteenBits(4101556399, 2841240209, 2311584167, 43731557, 2, 2311584167, 0, 855128140, 3, 1548741799, 2,
                3323317798, 1, 2312707600, 2, 2733887646, 1, 1408825895, 2, 154900641, 1, 431663472);
    FourBits(4101556399, 2841240209, 2311584167, 43731557, 145817, 431663472, 2, 805127868, 1, 1);
    ByOne(4101556399, 2333081, 2841240209, 3546186430);
  }

  lemma Row15O()
    ensures IsPrime(4294967291)
  {
    hide IsPrime, Gives, Power;
    SmallestPrimes();
    ByShortTrial(181); ByShortTrial(23);
    EightBits(22605091, 8602290, 289048, 5130284, 0, 1, 2, 289048, 3, 6365699, 1, 16453336, 1, 1);
    FourBits(22605091, 12086045, 13266577, 4384773, 1, 12086045, 1, 4681716, 3, 1);
    FourBits(22605091, 22605090, 1, 22605090, 0, 1, 0, 1, 2, 1);
    ByThree(22605091, 181, 8602290, 21206492, 23, 12086045, 20231047, 2, 22605090, 11302545);
    SixteenBits(4294967291, 1032245947, 2972383679, 3173242813, 1, 1032245947, 1, 2601678301, 1, 451646087, 2,
                4060120167, 0, 3268102296, 3, 2167116695, 2, 691333677, 3, 4107815251, 1, 119235671);
    EightBits(4294967291, 1032245947, 2972383679, 3173242813, 88301, 119235671, 0, 1636582705, 2, 3355370279, 0,
              1239808053, 3, 1);
    ByOne(4294967291, 22605091, 1032245947, 1495174533);
  }
}
