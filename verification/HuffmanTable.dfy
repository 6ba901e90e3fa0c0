/** The decoding table of the Huffman code, node for node. */
module HuffmanTable {
  import opened Huffman

  const EOF := HuffmanDecoder(8, [])
  const END31_1 := HuffmanDecoder(2, [Sym(10), Sym(13), Sym(22), Partial(EOF)])
  const END27B_1111 := HuffmanDecoder(1, [Sym(249), Partial(END31_1)])
  const END27B_1110 := HuffmanDecoder(1, [Sym(127), Sym(220)])
  const END27B_1101 := HuffmanDecoder(1, [Sym(30), Sym(31)])
  const END27B_1100 := HuffmanDecoder(1, [Sym(28), Sym(29)])
  const END27B_1011 := HuffmanDecoder(1, [Sym(26), Sym(27)])
  const END27B_1010 := HuffmanDecoder(1, [Sym(24), Sym(25)])
  const END27B_1001 := HuffmanDecoder(1, [Sym(21), Sym(23)])
  const END27B_1000 := HuffmanDecoder(1, [Sym(19), Sym(20)])
  const END27B_0111 := HuffmanDecoder(1, [Sym(17), Sym(18)])
  const END27B_0110 := HuffmanDecoder(1, [Sym(15), Sym(16)])
  const END27B_0101 := HuffmanDecoder(1, [Sym(12), Sym(14)])
  const END27B_0100 := HuffmanDecoder(1, [Sym(8), Sym(11)])
  const END27B_0011 := HuffmanDecoder(1, [Sym(6), Sym(7)])
  const END27B_0010 := HuffmanDecoder(1, [Sym(4), Sym(5)])
  const END27B_0001 := HuffmanDecoder(1, [Sym(2), Sym(3)])
  const END23B_1111 := HuffmanDecoder(4,
    [Sym(254), Partial(END27B_0001), Partial(END27B_0010), Partial(END27B_0011)] +
    [Partial(END27B_0100), Partial(END27B_0101), Partial(END27B_0110), Partial(END27B_0111)] +
    [Partial(END27B_1000), Partial(END27B_1001), Partial(END27B_1010), Partial(END27B_1011)] +
    [Partial(END27B_1100), Partial(END27B_1101), Partial(END27B_1110), Partial(END27B_1111)])
  const END23B_1110 := HuffmanDecoder(4,
    [Sym(211), Sym(212), Sym(214), Sym(221)] +
    [Sym(222), Sym(223), Sym(241), Sym(244)] +
    [Sym(245), Sym(246), Sym(247), Sym(248)] +
    [Sym(250), Sym(251), Sym(252), Sym(253)])
  const END27A_111 := HuffmanDecoder(1, [Sym(203), Sym(204)])
  const END23B_1101 := HuffmanDecoder(3, [
    Sym(218), Sym(219), Sym(238), Sym(240),
    Sym(242), Sym(243), Sym(255), Partial(END27A_111)])
  const END23B_1100 := HuffmanDecoder(3, [
    Sym(192), Sym(193), Sym(200), Sym(201),
    Sym(202), Sym(205), Sym(210), Sym(213)])
  const END23B_1011 := HuffmanDecoder(2, [Sym(199), Sym(207), Sym(234), Sym(235)])
  const END23B_1010 := HuffmanDecoder(1, [Sym(236), Sym(237)])
  const END23B_1001 := HuffmanDecoder(1, [Sym(215), Sym(225)])
  const END23B_1000 := HuffmanDecoder(1, [Sym(171), Sym(206)])
  const END23B_0111 := HuffmanDecoder(1, [Sym(148), Sym(159)])
  const END23B_0110 := HuffmanDecoder(1, [Sym(144), Sym(145)])
  const END23B_0101 := HuffmanDecoder(1, [Sym(9), Sym(142)])
  const END19_1111 := HuffmanDecoder(4,
    [Sym(188), Sym(191), Sym(197), Sym(231)] +
    [Sym(239), Partial(END23B_0101), Partial(END23B_0110), Partial(END23B_0111)] +
    [Partial(END23B_1000), Partial(END23B_1001), Partial(END23B_1010), Partial(END23B_1011)] +
    [Partial(END23B_1100), Partial(END23B_1101), Partial(END23B_1110), Partial(END23B_1111)])
  const END19_1110 := HuffmanDecoder(4,
    [Sym(147), Sym(149), Sym(150), Sym(151)] +
    [Sym(152), Sym(155), Sym(157), Sym(158)] +
    [Sym(165), Sym(166), Sym(168), Sym(174)] +
    [Sym(175), Sym(180), Sym(182), Sym(183)])
  const END23A_111 := HuffmanDecoder(1, [Sym(141), Sym(143)])
  const END23A_110 := HuffmanDecoder(1, [Sym(139), Sym(140)])
  const END23A_101 := HuffmanDecoder(1, [Sym(137), Sym(138)])
  const END23A_100 := HuffmanDecoder(1, [Sym(1), Sym(135)])
  const END19_1101 := HuffmanDecoder(3, [
    Sym(198), Sym(228), Sym(232), Sym(233),
    Partial(END23A_100), Partial(END23A_101), Partial(END23A_110), Partial(END23A_111)])
  const END19_1100 := HuffmanDecoder(3, [
    Sym(178), Sym(181), Sym(185), Sym(186),
    Sym(187), Sym(189), Sym(190), Sym(196)])
  const END19_1011 := HuffmanDecoder(3, [
    Sym(154), Sym(156), Sym(160), Sym(163),
    Sym(164), Sym(169), Sym(170), Sym(173)])
  const END19_1010_11 := HuffmanDecoder(1, [Sym(136), Sym(146)])
  const END19_1010_10 := HuffmanDecoder(1, [Sym(133), Sym(134)])
  const END19_1010_01 := HuffmanDecoder(1, [Sym(129), Sym(132)])
  const END19_1010 := HuffmanDecoder(2,
    [Sym(230), Partial(END19_1010_01), Partial(END19_1010_10), Partial(END19_1010_11)])
  const END19_1001 := HuffmanDecoder(2, [Sym(216), Sym(217), Sym(227), Sym(229)])
  const END19_1000 := HuffmanDecoder(2, [Sym(176), Sym(177), Sym(179), Sym(209)])
  const END19_0111 := HuffmanDecoder(2, [Sym(153), Sym(161), Sym(167), Sym(172)])
  const END19_0110 := HuffmanDecoder(1, [Sym(224), Sym(226)])
  const END19_0101 := HuffmanDecoder(1, [Sym(184), Sym(194)])
  const END19_0100 := HuffmanDecoder(1, [Sym(131), Sym(162)])
  const END19_0011 := HuffmanDecoder(1, [Sym(128), Sym(130)])
  const END15_1 := HuffmanDecoder(4,
    [Sym(92), Sym(195), Sym(208), Partial(END19_0011)] +
    [Partial(END19_0100), Partial(END19_0101), Partial(END19_0110), Partial(END19_0111)] +
    [Partial(END19_1000), Partial(END19_1001), Partial(END19_1010), Partial(END19_1011)] +
    [Partial(END19_1100), Partial(END19_1101), Partial(END19_1110), Partial(END19_1111)])
  const END14_1 := HuffmanDecoder(1, [Sym(123), Partial(END15_1)])
  const END14_0 := HuffmanDecoder(1, [Sym(60), Sym(96)])
  const END13_11 := HuffmanDecoder(1, [Partial(END14_0), Partial(END14_1)])
  const END13_10 := HuffmanDecoder(1, [Sym(94), Sym(125)])
  const END9B_11 := HuffmanDecoder(2, [Sym(93), Sym(126), Partial(END13_10), Partial(END13_11)])
  const END9B_10 := HuffmanDecoder(2, [Sym(0), Sym(36), Sym(64), Sym(91)])
  const END9B_01 := HuffmanDecoder(1, [Sym(35), Sym(62)])
  const END8_1 := HuffmanDecoder(2, [Sym(124), Partial(END9B_01), Partial(END9B_10), Partial(END9B_11)])
  const END9A_1 := HuffmanDecoder(1, [Sym(39), Sym(43)])
  const END8_0 := HuffmanDecoder(1, [Sym(63), Partial(END9A_1)])
  const END7_1 := HuffmanDecoder(1, [Partial(END8_0), Partial(END8_1)])
  const END7_0 := HuffmanDecoder(2, [Sym(33), Sym(34), Sym(40), Sym(41)])
  const END5_11 := HuffmanDecoder(1, [Partial(END7_0), Partial(END7_1)])
  const END5_10 := HuffmanDecoder(1, [Sym(88), Sym(90)])
  const END5_01 := HuffmanDecoder(1, [Sym(44), Sym(59)])
  const END5_00 := HuffmanDecoder(1, [Sym(38), Sym(42)])
  const END0_11111 := HuffmanDecoder(2, [Partial(END5_00), Partial(END5_01), Partial(END5_10), Partial(END5_11)])
  const END0_11110 := HuffmanDecoder(2, [Sym(119), Sym(120), Sym(121), Sym(122)])
  const END0_11101 := HuffmanDecoder(2, [Sym(106), Sym(107), Sym(113), Sym(118)])
  const END0_11100 := HuffmanDecoder(2, [Sym(85), Sym(86), Sym(87), Sym(89)])
  const END0_11011 := HuffmanDecoder(2, [Sym(81), Sym(82), Sym(83), Sym(84)])
  const END0_11010 := HuffmanDecoder(2, [Sym(77), Sym(78), Sym(79), Sym(80)])
  const END0_11001 := HuffmanDecoder(2, [Sym(73), Sym(74), Sym(75), Sym(76)])
  const END0_11000 := HuffmanDecoder(2, [Sym(69), Sym(70), Sym(71), Sym(72)])
  const END0_10111 := HuffmanDecoder(2, [Sym(58), Sym(66), Sym(67), Sym(68)])
  const END0_10110 := HuffmanDecoder(1, [Sym(114), Sym(117)])
  const END0_10101 := HuffmanDecoder(1, [Sym(110), Sym(112)])
  const END0_10100 := HuffmanDecoder(1, [Sym(108), Sym(109)])
  const END0_10011 := HuffmanDecoder(1, [Sym(103), Sym(104)])
  const END0_10010 := HuffmanDecoder(1, [Sym(100), Sym(102)])
  const END0_10001 := HuffmanDecoder(1, [Sym(95), Sym(98)])
  const END0_10000 := HuffmanDecoder(1, [Sym(61), Sym(65)])
  const END0_01111 := HuffmanDecoder(1, [Sym(56), Sym(57)])
  const END0_01110 := HuffmanDecoder(1, [Sym(54), Sym(55)])
  const END0_01101 := HuffmanDecoder(1, [Sym(52), Sym(53)])
  const END0_01100 := HuffmanDecoder(1, [Sym(47), Sym(51)])
  const END0_01011 := HuffmanDecoder(1, [Sym(45), Sym(46)])
  const END0_01010 := HuffmanDecoder(1, [Sym(32), Sym(37)])
  const HPACK_STRING := HuffmanDecoder(5,
    [Sym(48), Sym(49), Sym(50), Sym(97)] +
    [Sym(99), Sym(101), Sym(105), Sym(111)] +
    [Sym(115), Sym(116), Partial(END0_01010), Partial(END0_01011)] +
    [Partial(END0_01100), Partial(END0_01101), Partial(END0_01110), Partial(END0_01111)] +
    [Partial(END0_10000), Partial(END0_10001), Partial(END0_10010), Partial(END0_10011)] +
    [Partial(END0_10100), Partial(END0_10101), Partial(END0_10110), Partial(END0_10111)] +
    [Partial(END0_11000), Partial(END0_11001), Partial(END0_11010), Partial(END0_11011)] +
    [Partial(END0_11100), Partial(END0_11101), Partial(END0_11110), Partial(END0_11111)])
}
