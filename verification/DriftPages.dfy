/** Digests of given data: the published check value, and boot pages that differ and share a digest. */
module DriftPages {
  import opened Crc32c

  /** The generator itself, as a change of five bytes. */
  const BLANK_PAGE: seq<Byte> := [0, 0, 0, 0, 0]
  const TURNED_PAGE: seq<Byte> := [0xF1, 0x76, 0xEC, 0x05, 0x01]

  /** Two lengths. */
  const SHORT_PAGE: seq<Byte> := [0]
  const LONG_PAGE: seq<Byte> := [0x57, 0xAD, 0x24, 0x69]

  lemma Unroll(s: bv32, data: seq<Byte>)
    requires data != []
    ensures Continue(s, data) == (if |data| == 1 then Feed(s, data[0]) else Continue(Feed(s, data[0]), data[1..]))
  {
    hide Feed;
    if |data| == 1 {
      assert data[1..] == [];
    }
  }

  lemma BlankFeeds()
    ensures Feed(0xFFFF_FFFF, 0x00) == 0xAD82_ACAE
    ensures Feed(0xAD82_ACAE, 0x00) == 0x0E9E_882D
    ensures Feed(0x0E9E_882D, 0x00) == 0x9F9B_5C85
    ensures Feed(0x9F9B_5C85, 0x00) == 0xB798_B438
    ensures Feed(0xB798_B438, 0x00) == 0xBA8D_89CA
  {
    EightSteps(0xFFFF_FFFF);
    EightSteps(0xAD82_ACAE);
    EightSteps(0x0E9E_882D);
    EightSteps(0x9F9B_5C85);
    EightSteps(0xB798_B438);
  }

  lemma BlankDigest()
    ensures Digest(BLANK_PAGE) == 0x4572_7635
  {
    BlankFeeds();
    hide Feed;
    Unroll(ALL_ONES, BLANK_PAGE);
    Unroll(0xAD82_ACAE, BLANK_PAGE[1..]);
    Unroll(0x0E9E_882D, BLANK_PAGE[2..]);
    Unroll(0x9F9B_5C85, BLANK_PAGE[3..]);
    Unroll(0xB798_B438, BLANK_PAGE[4..]);
  }

  lemma TurnedFeeds()
    ensures Feed(0xFFFF_FFFF, 0xF1) == 0xAC87_40D8
    ensures Feed(0xAC87_40D8, 0x76) == 0x0E9F_8DC1
    ensures Feed(0x0E9F_8DC1, 0xEC) == 0x9F9B_5D80
    ensures Feed(0x9F9B_5D80, 0x05) == 0xB798_B439
    ensures Feed(0xB798_B439, 0x01) == 0xBA8D_89CA
  {
    EightSteps(0xFFFF_FF0E);
    EightSteps(0xAC87_40AE);
    EightSteps(0x0E9F_8D2D);
    EightSteps(0x9F9B_5D85);
    EightSteps(0xB798_B438);
  }

  lemma TurnedDigest()
    ensures Digest(TURNED_PAGE) == 0x4572_7635
  {
    TurnedFeeds();
    hide Feed;
    Unroll(ALL_ONES, TURNED_PAGE);
    Unroll(0xAC87_40D8, TURNED_PAGE[1..]);
    Unroll(0x0E9F_8DC1, TURNED_PAGE[2..]);
    Unroll(0x9F9B_5D80, TURNED_PAGE[3..]);
    Unroll(0xB798_B439, TURNED_PAGE[4..]);
  }

  lemma ShortFeeds()
    ensures Feed(0xFFFF_FFFF, 0x00) == 0xAD82_ACAE
  {
    EightSteps(0xFFFF_FFFF);
  }

  lemma ShortDigest()
    ensures Digest(SHORT_PAGE) == 0x527D_5351
  {
    ShortFeeds();
    hide Feed;
    Unroll(ALL_ONES, SHORT_PAGE);
  }

  lemma LongFeeds()
    ensures Feed(0xFFFF_FFFF, 0x57) == 0x286D_1296
    ensures Feed(0x286D_1296, 0xAD) == 0xA942_8F98
    ensures Feed(0xA942_8F98, 0x24) == 0xFFFF_FF96
    ensures Feed(0xFFFF_FF96, 0x69) == 0xAD82_ACAE
  {
    EightSteps(0xFFFF_FFA8);
    EightSteps(0x286D_123B);
    EightSteps(0xA942_8FBC);
    EightSteps(0xFFFF_FFFF);
  }

  lemma LongDigest()
    ensures Digest(LONG_PAGE) == 0x527D_5351
  {
    LongFeeds();
    hide Feed;
    Unroll(ALL_ONES, LONG_PAGE);
    Unroll(0x286D_1296, LONG_PAGE[1..]);
    Unroll(0xA942_8F98, LONG_PAGE[2..]);
    Unroll(0xFFFF_FF96, LONG_PAGE[3..]);
  }

  /** The published check value of CRC-32C: the digest of the nine ASCII digits "123456789". */
  const NINE_DIGITS: seq<Byte> := [0x31, 0x32, 0x33, 0x34, 0x35, 0x36, 0x37, 0x38, 0x39]

  lemma DigitFeeds()
    ensures Feed(0xFFFF_FFFF, 0x31) == 0x6F0A_661C
    ensures Feed(0x6F0A_661C, 0x32) == 0x8CAA_3B9F
    ensures Feed(0x8CAA_3B9F, 0x33) == 0xEF84_D04D
    ensures Feed(0xEF84_D04D, 0x34) == 0x09C5_0B11
    ensures Feed(0x09C5_0B11, 0x35) == 0xE72E_DCCA
    ensures Feed(0xE72E_DCCA, 0x36) == 0xBECA_8E79
    ensures Feed(0xBECA_8E79, 0x37) == 0xEDBD_6815
    ensures Feed(0xEDBD_6815, 0x38) == 0x9F78_7F65
    ensures Feed(0x9F78_7F65, 0x39) == 0x1CF9_6D7C
  {
    EightSteps(0xFFFF_FFCE);
    EightSteps(0x6F0A_662E);
    EightSteps(0x8CAA_3BAC);
    EightSteps(0xEF84_D079);
    EightSteps(0x09C5_0B24);
    EightSteps(0xE72E_DCFC);
    EightSteps(0xBECA_8E4E);
    EightSteps(0xEDBD_682D);
    EightSteps(0x9F78_7F5C);
  }

  lemma CheckValue()
    ensures Digest(NINE_DIGITS) == 0xE306_9283
  {
    DigitFeeds();
    hide Feed;
    Unroll(ALL_ONES, NINE_DIGITS);
    Unroll(0x6F0A_661C, NINE_DIGITS[1..]);
    Unroll(0x8CAA_3B9F, NINE_DIGITS[2..]);
    Unroll(0xEF84_D04D, NINE_DIGITS[3..]);
    Unroll(0x09C5_0B11, NINE_DIGITS[4..]);
    Unroll(0xE72E_DCCA, NINE_DIGITS[5..]);
    Unroll(0xBECA_8E79, NINE_DIGITS[6..]);
    Unroll(0xEDBD_6815, NINE_DIGITS[7..]);
    Unroll(0x9F78_7F65, NINE_DIGITS[8..]);
  }
}
