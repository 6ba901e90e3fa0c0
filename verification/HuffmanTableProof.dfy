/** Every node of the decoding table, from the deepest up: its entries sit at their codewords. */
module HuffmanTableProof {
  import opened Bytes
  import opened Bits
  import opened HuffmanTable
  import opened HuffmanCode

  lemma End311Ok()
    ensures Implements(END31_1, 0xfffffff, 28)
    ensures Reaches(END31_1, 10) && Reaches(END31_1, 13) && Reaches(END31_1, 22)
  {
    SmallPowers();
    hide Upto, Implements, Reaches, Pow2;
    Start(END31_1, 0x3ffffffc, 30);
    Leaf(END31_1, 0, 10, 0x3ffffffc, 30);
    Leaf(END31_1, 1, 13, 0x3ffffffc, 30);
    Leaf(END31_1, 2, 22, 0x3ffffffc, 30);
    DeadEnd(EOF);
    Inner(END31_1, 3, EOF, 0x3ffffffc, 30);
    Node(END31_1, 4, 0xfffffff, 28);
  }

  lemma End27b1111Ok()
    ensures Implements(END27B_1111, 0x7ffffff, 27)
    ensures Reaches(END27B_1111, 249)
    ensures forall s :: Reaches(END31_1, s) ==> Reaches(END27B_1111, s)
  {
    SmallPowers();
    hide Upto, Implements, Reaches, Pow2;
    Start(END27B_1111, 0xffffffe, 28);
    Leaf(END27B_1111, 0, 249, 0xffffffe, 28);
    End311Ok();
    Inner(END27B_1111, 1, END31_1, 0xffffffe, 28);
    Node(END27B_1111, 2, 0x7ffffff, 27);
  }

  lemma End23b1111Part0()
    ensures Upto(END23B_1111, 8, 0x7fffff0, 27)
    ensures Reaches(END23B_1111, 254) && Reaches(END23B_1111, 2) && Reaches(END23B_1111, 3) && Reaches(END23B_1111, 4)
    ensures Reaches(END23B_1111, 5) && Reaches(END23B_1111, 6) && Reaches(END23B_1111, 7) && Reaches(END23B_1111, 8)
    ensures Reaches(END23B_1111, 11) && Reaches(END23B_1111, 12) && Reaches(END23B_1111, 14)
    ensures Reaches(END23B_1111, 15)
    ensures Reaches(END23B_1111, 16) && Reaches(END23B_1111, 17) && Reaches(END23B_1111, 18)
  {
    hide Upto, Implements, Reaches, Pow2;
    Start(END23B_1111, 0x7fffff0, 27);
    Leaf(END23B_1111, 0, 254, 0x7fffff0, 27);
    Pair(END23B_1111, 1, END27B_0001, 2, 3, 0x7fffff0, 27);
    Pair(END23B_1111, 2, END27B_0010, 4, 5, 0x7fffff0, 27);
    Pair(END23B_1111, 3, END27B_0011, 6, 7, 0x7fffff0, 27);
    Pair(END23B_1111, 4, END27B_0100, 8, 11, 0x7fffff0, 27);
    Pair(END23B_1111, 5, END27B_0101, 12, 14, 0x7fffff0, 27);
    Pair(END23B_1111, 6, END27B_0110, 15, 16, 0x7fffff0, 27);
    Pair(END23B_1111, 7, END27B_0111, 17, 18, 0x7fffff0, 27);
  }

  lemma End23b1111Ok()
    ensures Implements(END23B_1111, 0x7fffff, 23)
    ensures Reaches(END23B_1111, 19) && Reaches(END23B_1111, 20) && Reaches(END23B_1111, 21)
    ensures Reaches(END23B_1111, 23)
    ensures Reaches(END23B_1111, 24) && Reaches(END23B_1111, 25) && Reaches(END23B_1111, 26)
    ensures Reaches(END23B_1111, 27)
    ensures Reaches(END23B_1111, 28) && Reaches(END23B_1111, 29) && Reaches(END23B_1111, 30)
    ensures Reaches(END23B_1111, 31)
    ensures Reaches(END23B_1111, 127) && Reaches(END23B_1111, 220)
    ensures forall s :: Reaches(END27B_1111, s) ==> Reaches(END23B_1111, s)
  {
    SmallPowers();
    hide Upto, Implements, Reaches, Pow2;
    End23b1111Part0();
    Pair(END23B_1111, 8, END27B_1000, 19, 20, 0x7fffff0, 27);
    Pair(END23B_1111, 9, END27B_1001, 21, 23, 0x7fffff0, 27);
    Pair(END23B_1111, 10, END27B_1010, 24, 25, 0x7fffff0, 27);
    Pair(END23B_1111, 11, END27B_1011, 26, 27, 0x7fffff0, 27);
    Pair(END23B_1111, 12, END27B_1100, 28, 29, 0x7fffff0, 27);
    Pair(END23B_1111, 13, END27B_1101, 30, 31, 0x7fffff0, 27);
    Pair(END23B_1111, 14, END27B_1110, 127, 220, 0x7fffff0, 27);
    End27b1111Ok();
    Inner(END23B_1111, 15, END27B_1111, 0x7fffff0, 27);
    Node(END23B_1111, 16, 0x7fffff, 23);
  }

  lemma End23b1110Part0()
    ensures Upto(END23B_1110, 8, 0x7ffffe0, 27)
    ensures Reaches(END23B_1110, 211) && Reaches(END23B_1110, 212) && Reaches(END23B_1110, 214)
    ensures Reaches(END23B_1110, 221)
    ensures Reaches(END23B_1110, 222) && Reaches(END23B_1110, 223) && Reaches(END23B_1110, 241)
    ensures Reaches(END23B_1110, 244)
  {
    hide Upto, Implements, Reaches, Pow2;
    Start(END23B_1110, 0x7ffffe0, 27);
    Leaf(END23B_1110, 0, 211, 0x7ffffe0, 27);
    Leaf(END23B_1110, 1, 212, 0x7ffffe0, 27);
    Leaf(END23B_1110, 2, 214, 0x7ffffe0, 27);
    Leaf(END23B_1110, 3, 221, 0x7ffffe0, 27);
    Leaf(END23B_1110, 4, 222, 0x7ffffe0, 27);
    Leaf(END23B_1110, 5, 223, 0x7ffffe0, 27);
    Leaf(END23B_1110, 6, 241, 0x7ffffe0, 27);
    Leaf(END23B_1110, 7, 244, 0x7ffffe0, 27);
  }

  lemma End23b1110Ok()
    ensures Implements(END23B_1110, 0x7ffffe, 23)
    ensures Reaches(END23B_1110, 245) && Reaches(END23B_1110, 246) && Reaches(END23B_1110, 247)
    ensures Reaches(END23B_1110, 248)
    ensures Reaches(END23B_1110, 250) && Reaches(END23B_1110, 251) && Reaches(END23B_1110, 252)
    ensures Reaches(END23B_1110, 253)
  {
    SmallPowers();
    hide Upto, Implements, Reaches, Pow2;
    End23b1110Part0();
    Leaf(END23B_1110, 8, 245, 0x7ffffe0, 27);
    Leaf(END23B_1110, 9, 246, 0x7ffffe0, 27);
    Leaf(END23B_1110, 10, 247, 0x7ffffe0, 27);
    Leaf(END23B_1110, 11, 248, 0x7ffffe0, 27);
    Leaf(END23B_1110, 12, 250, 0x7ffffe0, 27);
    Leaf(END23B_1110, 13, 251, 0x7ffffe0, 27);
    Leaf(END23B_1110, 14, 252, 0x7ffffe0, 27);
    Leaf(END23B_1110, 15, 253, 0x7ffffe0, 27);
    Node(END23B_1110, 16, 0x7ffffe, 23);
  }

  lemma End23b1101Ok()
    ensures Implements(END23B_1101, 0x7ffffd, 23)
    ensures Reaches(END23B_1101, 218) && Reaches(END23B_1101, 219) && Reaches(END23B_1101, 238)
    ensures Reaches(END23B_1101, 240)
    ensures Reaches(END23B_1101, 242) && Reaches(END23B_1101, 243) && Reaches(END23B_1101, 255)
    ensures Reaches(END23B_1101, 203)
    ensures Reaches(END23B_1101, 204)
  {
    SmallPowers();
    hide Upto, Implements, Reaches, Pow2;
    Start(END23B_1101, 0x3ffffe8, 26);
    Leaf(END23B_1101, 0, 218, 0x3ffffe8, 26);
    Leaf(END23B_1101, 1, 219, 0x3ffffe8, 26);
    Leaf(END23B_1101, 2, 238, 0x3ffffe8, 26);
    Leaf(END23B_1101, 3, 240, 0x3ffffe8, 26);
    Leaf(END23B_1101, 4, 242, 0x3ffffe8, 26);
    Leaf(END23B_1101, 5, 243, 0x3ffffe8, 26);
    Leaf(END23B_1101, 6, 255, 0x3ffffe8, 26);
    Pair(END23B_1101, 7, END27A_111, 203, 204, 0x3ffffe8, 26);
    Node(END23B_1101, 8, 0x7ffffd, 23);
  }

  lemma End23b1100Ok()
    ensures Implements(END23B_1100, 0x7ffffc, 23)
    ensures Reaches(END23B_1100, 192) && Reaches(END23B_1100, 193) && Reaches(END23B_1100, 200)
    ensures Reaches(END23B_1100, 201)
    ensures Reaches(END23B_1100, 202) && Reaches(END23B_1100, 205) && Reaches(END23B_1100, 210)
    ensures Reaches(END23B_1100, 213)
  {
    SmallPowers();
    hide Upto, Implements, Reaches, Pow2;
    Start(END23B_1100, 0x3ffffe0, 26);
    Leaf(END23B_1100, 0, 192, 0x3ffffe0, 26);
    Leaf(END23B_1100, 1, 193, 0x3ffffe0, 26);
    Leaf(END23B_1100, 2, 200, 0x3ffffe0, 26);
    Leaf(END23B_1100, 3, 201, 0x3ffffe0, 26);
    Leaf(END23B_1100, 4, 202, 0x3ffffe0, 26);
    Leaf(END23B_1100, 5, 205, 0x3ffffe0, 26);
    Leaf(END23B_1100, 6, 210, 0x3ffffe0, 26);
    Leaf(END23B_1100, 7, 213, 0x3ffffe0, 26);
    Node(END23B_1100, 8, 0x7ffffc, 23);
  }

  lemma End191111Part0()
    ensures Upto(END19_1111, 8, 0x7ffff0, 23)
    ensures Reaches(END19_1111, 188) && Reaches(END19_1111, 191) && Reaches(END19_1111, 197)
    ensures Reaches(END19_1111, 231)
    ensures Reaches(END19_1111, 239) && Reaches(END19_1111, 9) && Reaches(END19_1111, 142) && Reaches(END19_1111, 144)
    ensures Reaches(END19_1111, 145) && Reaches(END19_1111, 148) && Reaches(END19_1111, 159)
  {
    hide Upto, Implements, Reaches, Pow2;
    Start(END19_1111, 0x7ffff0, 23);
    Leaf(END19_1111, 0, 188, 0x7ffff0, 23);
    Leaf(END19_1111, 1, 191, 0x7ffff0, 23);
    Leaf(END19_1111, 2, 197, 0x7ffff0, 23);
    Leaf(END19_1111, 3, 231, 0x7ffff0, 23);
    Leaf(END19_1111, 4, 239, 0x7ffff0, 23);
    Pair(END19_1111, 5, END23B_0101, 9, 142, 0x7ffff0, 23);
    Pair(END19_1111, 6, END23B_0110, 144, 145, 0x7ffff0, 23);
    Pair(END19_1111, 7, END23B_0111, 148, 159, 0x7ffff0, 23);
  }

  lemma End191111Ok()
    ensures Implements(END19_1111, 0x7ffff, 19)
    ensures Reaches(END19_1111, 171) && Reaches(END19_1111, 206) && Reaches(END19_1111, 215)
    ensures Reaches(END19_1111, 225)
    ensures Reaches(END19_1111, 236) && Reaches(END19_1111, 237) && Reaches(END19_1111, 199)
    ensures Reaches(END19_1111, 207)
    ensures Reaches(END19_1111, 234) && Reaches(END19_1111, 235)
    ensures forall s :: Reaches(END23B_1100, s) ==> Reaches(END19_1111, s)
    ensures forall s :: Reaches(END23B_1101, s) ==> Reaches(END19_1111, s)
    ensures forall s :: Reaches(END23B_1110, s) ==> Reaches(END19_1111, s)
    ensures forall s :: Reaches(END23B_1111, s) ==> Reaches(END19_1111, s)
  {
    SmallPowers();
    hide Upto, Implements, Reaches, Pow2;
    End191111Part0();
    Pair(END19_1111, 8, END23B_1000, 171, 206, 0x7ffff0, 23);
    Pair(END19_1111, 9, END23B_1001, 215, 225, 0x7ffff0, 23);
    Pair(END19_1111, 10, END23B_1010, 236, 237, 0x7ffff0, 23);
    Quad(END19_1111, 11, END23B_1011, 199, 207, 234, 235, 0x7ffff0, 23);
    End23b1100Ok();
    Inner(END19_1111, 12, END23B_1100, 0x7ffff0, 23);
    End23b1101Ok();
    Inner(END19_1111, 13, END23B_1101, 0x7ffff0, 23);
    End23b1110Ok();
    Inner(END19_1111, 14, END23B_1110, 0x7ffff0, 23);
    End23b1111Ok();
    Inner(END19_1111, 15, END23B_1111, 0x7ffff0, 23);
    Node(END19_1111, 16, 0x7ffff, 19);
  }

  lemma End191110Part0()
    ensures Upto(END19_1110, 8, 0x7fffe0, 23)
    ensures Reaches(END19_1110, 147) && Reaches(END19_1110, 149) && Reaches(END19_1110, 150)
    ensures Reaches(END19_1110, 151)
    ensures Reaches(END19_1110, 152) && Reaches(END19_1110, 155) && Reaches(END19_1110, 157)
    ensures Reaches(END19_1110, 158)
  {
    hide Upto, Implements, Reaches, Pow2;
    Start(END19_1110, 0x7fffe0, 23);
    Leaf(END19_1110, 0, 147, 0x7fffe0, 23);
    Leaf(END19_1110, 1, 149, 0x7fffe0, 23);
    Leaf(END19_1110, 2, 150, 0x7fffe0, 23);
    Leaf(END19_1110, 3, 151, 0x7fffe0, 23);
    Leaf(END19_1110, 4, 152, 0x7fffe0, 23);
    Leaf(END19_1110, 5, 155, 0x7fffe0, 23);
    Leaf(END19_1110, 6, 157, 0x7fffe0, 23);
    Leaf(END19_1110, 7, 158, 0x7fffe0, 23);
  }

  lemma End191110Ok()
    ensures Implements(END19_1110, 0x7fffe, 19)
    ensures Reaches(END19_1110, 165) && Reaches(END19_1110, 166) && Reaches(END19_1110, 168)
    ensures Reaches(END19_1110, 174)
    ensures Reaches(END19_1110, 175) && Reaches(END19_1110, 180) && Reaches(END19_1110, 182)
    ensures Reaches(END19_1110, 183)
  {
    SmallPowers();
    hide Upto, Implements, Reaches, Pow2;
    End191110Part0();
    Leaf(END19_1110, 8, 165, 0x7fffe0, 23);
    Leaf(END19_1110, 9, 166, 0x7fffe0, 23);
    Leaf(END19_1110, 10, 168, 0x7fffe0, 23);
    Leaf(END19_1110, 11, 174, 0x7fffe0, 23);
    Leaf(END19_1110, 12, 175, 0x7fffe0, 23);
    Leaf(END19_1110, 13, 180, 0x7fffe0, 23);
    Leaf(END19_1110, 14, 182, 0x7fffe0, 23);
    Leaf(END19_1110, 15, 183, 0x7fffe0, 23);
    Node(END19_1110, 16, 0x7fffe, 19);
  }

  lemma End191101Ok()
    ensures Implements(END19_1101, 0x7fffd, 19)
    ensures Reaches(END19_1101, 198) && Reaches(END19_1101, 228) && Reaches(END19_1101, 232)
    ensures Reaches(END19_1101, 233)
    ensures Reaches(END19_1101, 1) && Reaches(END19_1101, 135) && Reaches(END19_1101, 137) && Reaches(END19_1101, 138)
    ensures Reaches(END19_1101, 139) && Reaches(END19_1101, 140) && Reaches(END19_1101, 141)
    ensures Reaches(END19_1101, 143)
  {
    SmallPowers();
    hide Upto, Implements, Reaches, Pow2;
    Start(END19_1101, 0x3fffe8, 22);
    Leaf(END19_1101, 0, 198, 0x3fffe8, 22);
    Leaf(END19_1101, 1, 228, 0x3fffe8, 22);
    Leaf(END19_1101, 2, 232, 0x3fffe8, 22);
    Leaf(END19_1101, 3, 233, 0x3fffe8, 22);
    Pair(END19_1101, 4, END23A_100, 1, 135, 0x3fffe8, 22);
    Pair(END19_1101, 5, END23A_101, 137, 138, 0x3fffe8, 22);
    Pair(END19_1101, 6, END23A_110, 139, 140, 0x3fffe8, 22);
    Pair(END19_1101, 7, END23A_111, 141, 143, 0x3fffe8, 22);
    Node(END19_1101, 8, 0x7fffd, 19);
  }

  lemma End191100Ok()
    ensures Implements(END19_1100, 0x7fffc, 19)
    ensures Reaches(END19_1100, 178) && Reaches(END19_1100, 181) && Reaches(END19_1100, 185)
    ensures Reaches(END19_1100, 186)
    ensures Reaches(END19_1100, 187) && Reaches(END19_1100, 189) && Reaches(END19_1100, 190)
    ensures Reaches(END19_1100, 196)
  {
    SmallPowers();
    hide Upto, Implements, Reaches, Pow2;
    Start(END19_1100, 0x3fffe0, 22);
    Leaf(END19_1100, 0, 178, 0x3fffe0, 22);
    Leaf(END19_1100, 1, 181, 0x3fffe0, 22);
    Leaf(END19_1100, 2, 185, 0x3fffe0, 22);
    Leaf(END19_1100, 3, 186, 0x3fffe0, 22);
    Leaf(END19_1100, 4, 187, 0x3fffe0, 22);
    Leaf(END19_1100, 5, 189, 0x3fffe0, 22);
    Leaf(END19_1100, 6, 190, 0x3fffe0, 22);
    Leaf(END19_1100, 7, 196, 0x3fffe0, 22);
    Node(END19_1100, 8, 0x7fffc, 19);
  }

  lemma End191011Ok()
    ensures Implements(END19_1011, 0x7fffb, 19)
    ensures Reaches(END19_1011, 154) && Reaches(END19_1011, 156) && Reaches(END19_1011, 160)
    ensures Reaches(END19_1011, 163)
    ensures Reaches(END19_1011, 164) && Reaches(END19_1011, 169) && Reaches(END19_1011, 170)
    ensures Reaches(END19_1011, 173)
  {
    SmallPowers();
    hide Upto, Implements, Reaches, Pow2;
    Start(END19_1011, 0x3fffd8, 22);
    Leaf(END19_1011, 0, 154, 0x3fffd8, 22);
    Leaf(END19_1011, 1, 156, 0x3fffd8, 22);
    Leaf(END19_1011, 2, 160, 0x3fffd8, 22);
    Leaf(END19_1011, 3, 163, 0x3fffd8, 22);
    Leaf(END19_1011, 4, 164, 0x3fffd8, 22);
    Leaf(END19_1011, 5, 169, 0x3fffd8, 22);
    Leaf(END19_1011, 6, 170, 0x3fffd8, 22);
    Leaf(END19_1011, 7, 173, 0x3fffd8, 22);
    Node(END19_1011, 8, 0x7fffb, 19);
  }

  lemma End191010Ok()
    ensures Implements(END19_1010, 0x7fffa, 19)
    ensures Reaches(END19_1010, 230) && Reaches(END19_1010, 129) && Reaches(END19_1010, 132)
    ensures Reaches(END19_1010, 133)
    ensures Reaches(END19_1010, 134) && Reaches(END19_1010, 136) && Reaches(END19_1010, 146)
  {
    SmallPowers();
    hide Upto, Implements, Reaches, Pow2;
    Start(END19_1010, 0x1fffe8, 21);
    Leaf(END19_1010, 0, 230, 0x1fffe8, 21);
    Pair(END19_1010, 1, END19_1010_01, 129, 132, 0x1fffe8, 21);
    Pair(END19_1010, 2, END19_1010_10, 133, 134, 0x1fffe8, 21);
    Pair(END19_1010, 3, END19_1010_11, 136, 146, 0x1fffe8, 21);
    Node(END19_1010, 4, 0x7fffa, 19);
  }

  lemma End151Part0()
    ensures Upto(END15_1, 8, 0x7fff0, 19)
    ensures Reaches(END15_1, 92) && Reaches(END15_1, 195) && Reaches(END15_1, 208) && Reaches(END15_1, 128)
    ensures Reaches(END15_1, 130) && Reaches(END15_1, 131) && Reaches(END15_1, 162) && Reaches(END15_1, 184)
    ensures Reaches(END15_1, 194) && Reaches(END15_1, 224) && Reaches(END15_1, 226) && Reaches(END15_1, 153)
    ensures Reaches(END15_1, 161) && Reaches(END15_1, 167) && Reaches(END15_1, 172)
  {
    hide Upto, Implements, Reaches, Pow2;
    Start(END15_1, 0x7fff0, 19);
    Leaf(END15_1, 0, 92, 0x7fff0, 19);
    Leaf(END15_1, 1, 195, 0x7fff0, 19);
    Leaf(END15_1, 2, 208, 0x7fff0, 19);
    Pair(END15_1, 3, END19_0011, 128, 130, 0x7fff0, 19);
    Pair(END15_1, 4, END19_0100, 131, 162, 0x7fff0, 19);
    Pair(END15_1, 5, END19_0101, 184, 194, 0x7fff0, 19);
    Pair(END15_1, 6, END19_0110, 224, 226, 0x7fff0, 19);
    Quad(END15_1, 7, END19_0111, 153, 161, 167, 172, 0x7fff0, 19);
  }

  lemma End151Ok()
    ensures Implements(END15_1, 0x7fff, 15)
    ensures Reaches(END15_1, 176) && Reaches(END15_1, 177) && Reaches(END15_1, 179) && Reaches(END15_1, 209)
    ensures Reaches(END15_1, 216) && Reaches(END15_1, 217) && Reaches(END15_1, 227) && Reaches(END15_1, 229)
    ensures forall s :: Reaches(END19_1010, s) ==> Reaches(END15_1, s)
    ensures forall s :: Reaches(END19_1011, s) ==> Reaches(END15_1, s)
    ensures forall s :: Reaches(END19_1100, s) ==> Reaches(END15_1, s)
    ensures forall s :: Reaches(END19_1101, s) ==> Reaches(END15_1, s)
    ensures forall s :: Reaches(END19_1110, s) ==> Reaches(END15_1, s)
    ensures forall s :: Reaches(END19_1111, s) ==> Reaches(END15_1, s)
  {
    SmallPowers();
    hide Upto, Implements, Reaches, Pow2;
    End151Part0();
    Quad(END15_1, 8, END19_1000, 176, 177, 179, 209, 0x7fff0, 19);
    Quad(END15_1, 9, END19_1001, 216, 217, 227, 229, 0x7fff0, 19);
    End191010Ok();
    Inner(END15_1, 10, END19_1010, 0x7fff0, 19);
    End191011Ok();
    Inner(END15_1, 11, END19_1011, 0x7fff0, 19);
    End191100Ok();
    Inner(END15_1, 12, END19_1100, 0x7fff0, 19);
    End191101Ok();
    Inner(END15_1, 13, END19_1101, 0x7fff0, 19);
    End191110Ok();
    Inner(END15_1, 14, END19_1110, 0x7fff0, 19);
    End191111Ok();
    Inner(END15_1, 15, END19_1111, 0x7fff0, 19);
    Node(END15_1, 16, 0x7fff, 15);
  }

  lemma End141Ok()
    ensures Implements(END14_1, 0x3fff, 14)
    ensures Reaches(END14_1, 123)
    ensures forall s :: Reaches(END15_1, s) ==> Reaches(END14_1, s)
  {
    SmallPowers();
    hide Upto, Implements, Reaches, Pow2;
    Start(END14_1, 0x7ffe, 15);
    Leaf(END14_1, 0, 123, 0x7ffe, 15);
    End151Ok();
    Inner(END14_1, 1, END15_1, 0x7ffe, 15);
    Node(END14_1, 2, 0x3fff, 14);
  }

  lemma End1311Ok()
    ensures Implements(END13_11, 0x1fff, 13)
    ensures Reaches(END13_11, 60) && Reaches(END13_11, 96)
    ensures forall s :: Reaches(END14_1, s) ==> Reaches(END13_11, s)
  {
    SmallPowers();
    hide Upto, Implements, Reaches, Pow2;
    Start(END13_11, 0x3ffe, 14);
    Pair(END13_11, 0, END14_0, 60, 96, 0x3ffe, 14);
    End141Ok();
    Inner(END13_11, 1, END14_1, 0x3ffe, 14);
    Node(END13_11, 2, 0x1fff, 13);
  }

  lemma End9b11Ok()
    ensures Implements(END9B_11, 0x7ff, 11)
    ensures Reaches(END9B_11, 93) && Reaches(END9B_11, 126) && Reaches(END9B_11, 94) && Reaches(END9B_11, 125)
    ensures forall s :: Reaches(END13_11, s) ==> Reaches(END9B_11, s)
  {
    SmallPowers();
    hide Upto, Implements, Reaches, Pow2;
    Start(END9B_11, 0x1ffc, 13);
    Leaf(END9B_11, 0, 93, 0x1ffc, 13);
    Leaf(END9B_11, 1, 126, 0x1ffc, 13);
    Pair(END9B_11, 2, END13_10, 94, 125, 0x1ffc, 13);
    End1311Ok();
    Inner(END9B_11, 3, END13_11, 0x1ffc, 13);
    Node(END9B_11, 4, 0x7ff, 11);
  }

  lemma End81Ok()
    ensures Implements(END8_1, 0x1ff, 9)
    ensures Reaches(END8_1, 124) && Reaches(END8_1, 35) && Reaches(END8_1, 62) && Reaches(END8_1, 0)
    ensures Reaches(END8_1, 36) && Reaches(END8_1, 64) && Reaches(END8_1, 91)
    ensures forall s :: Reaches(END9B_11, s) ==> Reaches(END8_1, s)
  {
    SmallPowers();
    hide Upto, Implements, Reaches, Pow2;
    Start(END8_1, 0x7fc, 11);
    Leaf(END8_1, 0, 124, 0x7fc, 11);
    Pair(END8_1, 1, END9B_01, 35, 62, 0x7fc, 11);
    Quad(END8_1, 2, END9B_10, 0, 36, 64, 91, 0x7fc, 11);
    End9b11Ok();
    Inner(END8_1, 3, END9B_11, 0x7fc, 11);
    Node(END8_1, 4, 0x1ff, 9);
  }

  lemma End80Ok()
    ensures Implements(END8_0, 0x1fe, 9)
    ensures Reaches(END8_0, 63) && Reaches(END8_0, 39) && Reaches(END8_0, 43)
  {
    SmallPowers();
    hide Upto, Implements, Reaches, Pow2;
    Start(END8_0, 0x3fc, 10);
    Leaf(END8_0, 0, 63, 0x3fc, 10);
    Pair(END8_0, 1, END9A_1, 39, 43, 0x3fc, 10);
    Node(END8_0, 2, 0x1fe, 9);
  }

  lemma End71Ok()
    ensures Implements(END7_1, 0xff, 8)
    ensures forall s :: Reaches(END8_0, s) ==> Reaches(END7_1, s)
    ensures forall s :: Reaches(END8_1, s) ==> Reaches(END7_1, s)
  {
    SmallPowers();
    hide Upto, Implements, Reaches, Pow2;
    Start(END7_1, 0x1fe, 9);
    End80Ok();
    Inner(END7_1, 0, END8_0, 0x1fe, 9);
    End81Ok();
    Inner(END7_1, 1, END8_1, 0x1fe, 9);
    Node(END7_1, 2, 0xff, 8);
  }

  lemma End511Ok()
    ensures Implements(END5_11, 0x7f, 7)
    ensures Reaches(END5_11, 33) && Reaches(END5_11, 34) && Reaches(END5_11, 40) && Reaches(END5_11, 41)
    ensures forall s :: Reaches(END7_1, s) ==> Reaches(END5_11, s)
  {
    SmallPowers();
    hide Upto, Implements, Reaches, Pow2;
    Start(END5_11, 0xfe, 8);
    Quad(END5_11, 0, END7_0, 33, 34, 40, 41, 0xfe, 8);
    End71Ok();
    Inner(END5_11, 1, END7_1, 0xfe, 8);
    Node(END5_11, 2, 0x7f, 7);
  }

  lemma End011111Ok()
    ensures Implements(END0_11111, 0x1f, 5)
    ensures Reaches(END0_11111, 38) && Reaches(END0_11111, 42) && Reaches(END0_11111, 44) && Reaches(END0_11111, 59)
    ensures Reaches(END0_11111, 88) && Reaches(END0_11111, 90)
    ensures forall s :: Reaches(END5_11, s) ==> Reaches(END0_11111, s)
  {
    SmallPowers();
    hide Upto, Implements, Reaches, Pow2;
    Start(END0_11111, 0x7c, 7);
    Pair(END0_11111, 0, END5_00, 38, 42, 0x7c, 7);
    Pair(END0_11111, 1, END5_01, 44, 59, 0x7c, 7);
    Pair(END0_11111, 2, END5_10, 88, 90, 0x7c, 7);
    End511Ok();
    Inner(END0_11111, 3, END5_11, 0x7c, 7);
    Node(END0_11111, 4, 0x1f, 5);
  }

  lemma HpackStringPart0()
    ensures Upto(HPACK_STRING, 6, 0x0, 5)
    ensures Reaches(HPACK_STRING, 48) && Reaches(HPACK_STRING, 49) && Reaches(HPACK_STRING, 50)
    ensures Reaches(HPACK_STRING, 97)
    ensures Reaches(HPACK_STRING, 99) && Reaches(HPACK_STRING, 101)
  {
    hide Upto, Implements, Reaches, Pow2;
    Start(HPACK_STRING, 0x0, 5);
    Leaf(HPACK_STRING, 0, 48, 0x0, 5);
    Leaf(HPACK_STRING, 1, 49, 0x0, 5);
    Leaf(HPACK_STRING, 2, 50, 0x0, 5);
    Leaf(HPACK_STRING, 3, 97, 0x0, 5);
    Leaf(HPACK_STRING, 4, 99, 0x0, 5);
    Leaf(HPACK_STRING, 5, 101, 0x0, 5);
  }

  lemma HpackStringPart1()
    ensures Upto(HPACK_STRING, 12, 0x0, 5)
    ensures Reaches(HPACK_STRING, 105) && Reaches(HPACK_STRING, 111) && Reaches(HPACK_STRING, 115)
    ensures Reaches(HPACK_STRING, 116)
    ensures Reaches(HPACK_STRING, 32) && Reaches(HPACK_STRING, 37) && Reaches(HPACK_STRING, 45)
    ensures Reaches(HPACK_STRING, 46)
  {
    hide Upto, Implements, Reaches, Pow2;
    HpackStringPart0();
    Leaf(HPACK_STRING, 6, 105, 0x0, 5);
    Leaf(HPACK_STRING, 7, 111, 0x0, 5);
    Leaf(HPACK_STRING, 8, 115, 0x0, 5);
    Leaf(HPACK_STRING, 9, 116, 0x0, 5);
    Pair(HPACK_STRING, 10, END0_01010, 32, 37, 0x0, 5);
    Pair(HPACK_STRING, 11, END0_01011, 45, 46, 0x0, 5);
  }

  lemma HpackStringPart2()
    ensures Upto(HPACK_STRING, 18, 0x0, 5)
    ensures Reaches(HPACK_STRING, 47) && Reaches(HPACK_STRING, 51) && Reaches(HPACK_STRING, 52)
    ensures Reaches(HPACK_STRING, 53)
    ensures Reaches(HPACK_STRING, 54) && Reaches(HPACK_STRING, 55) && Reaches(HPACK_STRING, 56)
    ensures Reaches(HPACK_STRING, 57)
    ensures Reaches(HPACK_STRING, 61) && Reaches(HPACK_STRING, 65) && Reaches(HPACK_STRING, 95)
    ensures Reaches(HPACK_STRING, 98)
  {
    hide Upto, Implements, Reaches, Pow2;
    HpackStringPart1();
    Pair(HPACK_STRING, 12, END0_01100, 47, 51, 0x0, 5);
    Pair(HPACK_STRING, 13, END0_01101, 52, 53, 0x0, 5);
    Pair(HPACK_STRING, 14, END0_01110, 54, 55, 0x0, 5);
    Pair(HPACK_STRING, 15, END0_01111, 56, 57, 0x0, 5);
    Pair(HPACK_STRING, 16, END0_10000, 61, 65, 0x0, 5);
    Pair(HPACK_STRING, 17, END0_10001, 95, 98, 0x0, 5);
  }

  lemma HpackStringPart3()
    ensures Upto(HPACK_STRING, 24, 0x0, 5)
    ensures Reaches(HPACK_STRING, 100) && Reaches(HPACK_STRING, 102) && Reaches(HPACK_STRING, 103)
    ensures Reaches(HPACK_STRING, 104)
    ensures Reaches(HPACK_STRING, 108) && Reaches(HPACK_STRING, 109) && Reaches(HPACK_STRING, 110)
    ensures Reaches(HPACK_STRING, 112)
    ensures Reaches(HPACK_STRING, 114) && Reaches(HPACK_STRING, 117) && Reaches(HPACK_STRING, 58)
    ensures Reaches(HPACK_STRING, 66)
    ensures Reaches(HPACK_STRING, 67) && Reaches(HPACK_STRING, 68)
  {
    hide Upto, Implements, Reaches, Pow2;
    HpackStringPart2();
    Pair(HPACK_STRING, 18, END0_10010, 100, 102, 0x0, 5);
    Pair(HPACK_STRING, 19, END0_10011, 103, 104, 0x0, 5);
    Pair(HPACK_STRING, 20, END0_10100, 108, 109, 0x0, 5);
    Pair(HPACK_STRING, 21, END0_10101, 110, 112, 0x0, 5);
    Pair(HPACK_STRING, 22, END0_10110, 114, 117, 0x0, 5);
    Quad(HPACK_STRING, 23, END0_10111, 58, 66, 67, 68, 0x0, 5);
  }

  lemma HpackStringPart4()
    ensures Upto(HPACK_STRING, 30, 0x0, 5)
    ensures Reaches(HPACK_STRING, 69) && Reaches(HPACK_STRING, 70) && Reaches(HPACK_STRING, 71)
    ensures Reaches(HPACK_STRING, 72)
    ensures Reaches(HPACK_STRING, 73) && Reaches(HPACK_STRING, 74) && Reaches(HPACK_STRING, 75)
    ensures Reaches(HPACK_STRING, 76)
    ensures Reaches(HPACK_STRING, 77) && Reaches(HPACK_STRING, 78) && Reaches(HPACK_STRING, 79)
    ensures Reaches(HPACK_STRING, 80)
    ensures Reaches(HPACK_STRING, 81) && Reaches(HPACK_STRING, 82) && Reaches(HPACK_STRING, 83)
    ensures Reaches(HPACK_STRING, 84)
    ensures Reaches(HPACK_STRING, 85) && Reaches(HPACK_STRING, 86) && Reaches(HPACK_STRING, 87)
    ensures Reaches(HPACK_STRING, 89)
    ensures Reaches(HPACK_STRING, 106) && Reaches(HPACK_STRING, 107) && Reaches(HPACK_STRING, 113)
    ensures Reaches(HPACK_STRING, 118)
  {
    hide Upto, Implements, Reaches, Pow2;
    HpackStringPart3();
    Quad(HPACK_STRING, 24, END0_11000, 69, 70, 71, 72, 0x0, 5);
    Quad(HPACK_STRING, 25, END0_11001, 73, 74, 75, 76, 0x0, 5);
    Quad(HPACK_STRING, 26, END0_11010, 77, 78, 79, 80, 0x0, 5);
    Quad(HPACK_STRING, 27, END0_11011, 81, 82, 83, 84, 0x0, 5);
    Quad(HPACK_STRING, 28, END0_11100, 85, 86, 87, 89, 0x0, 5);
    Quad(HPACK_STRING, 29, END0_11101, 106, 107, 113, 118, 0x0, 5);
  }

  lemma HpackStringOk()
    ensures Implements(HPACK_STRING, 0x0, 0)
    ensures Reaches(HPACK_STRING, 119) && Reaches(HPACK_STRING, 120) && Reaches(HPACK_STRING, 121)
    ensures Reaches(HPACK_STRING, 122)
    ensures forall s :: Reaches(END0_11111, s) ==> Reaches(HPACK_STRING, s)
  {
    SmallPowers();
    hide Upto, Implements, Reaches, Pow2;
    HpackStringPart4();
    Quad(HPACK_STRING, 30, END0_11110, 119, 120, 121, 122, 0x0, 5);
    End011111Ok();
    Inner(HPACK_STRING, 31, END0_11111, 0x0, 5);
    Node(HPACK_STRING, 32, 0x0, 0);
  }

  /** The table decodes every codeword of Appendix B of RFC 7541, at exactly its place. */
  lemma TableImplementsCode()
    ensures Implements(HPACK_STRING, 0, 0)
    ensures forall s: byte :: Reaches(HPACK_STRING, s)
  {
    hide Implements, Reaches;
    HpackStringPart0();
    HpackStringPart1();
    HpackStringPart2();
    HpackStringPart3();
    HpackStringPart4();
    HpackStringOk();
    End011111Ok();
    End511Ok();
    End71Ok();
    End80Ok();
    End81Ok();
    End9b11Ok();
    End1311Ok();
    End141Ok();
    End151Part0();
    End151Ok();
    End191010Ok();
    End191011Ok();
    End191100Ok();
    End191101Ok();
    End191110Part0();
    End191110Ok();
    End191111Part0();
    End191111Ok();
    End23b1100Ok();
    End23b1101Ok();
    End23b1110Part0();
    End23b1110Ok();
    End23b1111Part0();
    End23b1111Ok();
    End27b1111Ok();
    End311Ok();
  }
}
