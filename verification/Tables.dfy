/** The constant tables of src/tinflate.c, and what their entries are. */
module Tables {
  import opened Bits
  import opened Deflate

  function LengthBitsTable(): (r: seq<nat>)
    ensures |r| == 30
  {
    [0, 0, 0, 0, 0, 0, 0, 0, 1, 1, 1, 1, 2, 2, 2, 2, 3, 3, 3, 3, 4, 4, 4, 4, 5, 5, 5, 5, 0, 127]
  }

  function LengthBaseTable(): (r: seq<nat>)
    ensures |r| == 30
  {
    [3, 4, 5, 6, 7, 8, 9, 10, 11, 13, 15, 17, 19, 23, 27, 31, 35, 43, 51, 59,
     67, 83, 99, 115, 131, 163, 195, 227, 258, 0]
  }

  function DistBitsTable(): (r: seq<nat>)
    ensures |r| == 30
  {
    [0, 0, 0, 0, 1, 1, 2, 2, 3, 3, 4, 4, 5, 5, 6, 6, 7, 7, 8, 8, 9, 9, 10, 10, 11, 11, 12, 12, 13, 13]
  }

  function DistBaseTable(): (r: seq<nat>)
    ensures |r| == 30
  {
    [1, 2, 3, 4, 5, 7, 9, 13, 17, 25, 33, 49, 65, 97, 129, 193, 257, 385, 513, 769,
     1025, 1537, 2049, 3073, 4097, 6145, 8193, 12289, 16385, 24577]
  }

  function CodeLengthOrderTable(): (r: seq<nat>)
    ensures |r| == 19
  {
    [16, 17, 18, 0, 8, 7, 9, 6, 10, 5, 11, 4, 12, 3, 13, 2, 14, 1, 15]
  }

  /** The closed forms used for the length tables agree with every entry the decoder can reach. */
  lemma LengthTablesAgree(c: nat)
    requires c <= 28
    ensures LengthBitsTable()[c] == LengthBits(c) && LengthBaseTable()[c] == LengthBase(c)
  {
  }

  lemma DistTablesAgree(c: nat)
    requires c <= 29
    ensures DistBitsTable()[c] == DistBits(c) && DistBaseTable()[c] == DistBase(c)
  {
    Pow2Values();
  }

  lemma OrderTableAgrees(i: nat)
    requires i < 19
    ensures CodeLengthOrderTable()[i] == CodeLengthOrder(i)
  {
  }
}
