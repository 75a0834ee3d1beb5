/** Decryption of a partition, and when it undoes encryption. */
module NvsDecrypt {
  import opened Bytes
  import opened Options
  import opened NvsFormat
  import opened NvsSpec
  import opened NvsReader
  import opened NvsTweak
  import opened NvsPageRoundTrip
  import opened NvsRoundTrip
  import opened NvsRuns

  const BLOCKS_PER_PAGE := 128

  /** Block b of 32 bytes. */
  function Block(image: seq<byte>, b: nat): Slot
    requires 32 * b + 32 <= |image|
  {
    image[32 * b..32 * b + 32]
  }

  /** How many blocks of a page's data area before position k are not erased. */
  function Rank(image: seq<byte>, page: nat, k: nat): (n: nat)
    requires k <= BLOCKS_PER_PAGE && 32 * (BLOCKS_PER_PAGE * page + k) <= |image|
    ensures n <= Max(0, k - 2)
  {
    if k <= 2 then 0
    else Rank(image, page, k - 1) + if Block(image, BLOCKS_PER_PAGE * page + k - 1) == Blank(32) then 0 else 1
  }

  /** What decryption makes of block b: headers, bitmaps and erased blocks stay; any other block is
      deciphered under the tweak of as many slots as came before it in its page. */
  function DecryptedBlock(x: Externals, image: seq<byte>, b: nat): Slot
    requires 32 * b + 32 <= |image|
  {
    var page, k := b / BLOCKS_PER_PAGE, b % BLOCKS_PER_PAGE;
    if k < 2 || Block(image, b) == Blank(32) then Block(image, b)
    else x.decrypt(Tweak(page, Rank(image, page, k)), Block(image, b))
  }

  method DecryptData(dataInput: Slot, pageNum: nat, entryNo: nat, x: Externals) returns (decrypted: Slot)
    requires pageNum < 0x1_0000_0000 && entryNo < MAX_ENTRIES
    ensures decrypted == x.decrypt(LE(4096 * pageNum + 64 + 32 * entryNo, 16), dataInput)
  {
    hide Hexlify, Unhexlify, TweakText, Tweak, Hex;
    var hexData := Hexlify(dataInput);
    var relAddr := pageNum * PAGE_SIZE + FIRST_ENTRY_OFFSET;
    var offset := entryNo * SLOT_SIZE;
    assert relAddr + offset == SlotAddress(pageNum, entryNo);
    SlotTweak(pageNum, entryNo);
    var tweakVal := MakeTweak(relAddr + offset);
    HexlifyRoundTrip(dataInput);
    decrypted := x.decrypt(Unhexlify(tweakVal), Unhexlify(hexData));
  }

  lemma {:induction false} TweakIsLE(page: nat, i: nat)
    ensures Tweak(page, i) == LE(4096 * page + 64 + 32 * i, 16)
  {
  }

  /** The first n blocks of the output are done. The output starts as one erased byte. */
  ghost predicate DecryptedUpTo(x: Externals, input: seq<byte>, output: seq<byte>, n: nat)
    requires 32 * n <= |input|
  {
    (if n == 0 then output == [BLANK_BYTE] else |output| == 32 * n) &&
    forall b :: 0 <= b < n ==> 32 * b + 32 <= |output| && Block(output, b) == DecryptedBlock(x, input, b)
  }

  /** The slice assignment of block n replaces the initial byte or appends. */
  lemma {:induction false} Appends(
      x: Externals, input: seq<byte>, output: seq<byte>, n: nat, startIdx: nat, entry: Slot)
    requires 32 * n + 32 <= |input| && DecryptedUpTo(x, input, output, n)
    requires if n == 0 then startIdx == 0 else startIdx >= 32 * n
    requires entry == DecryptedBlock(x, input, n)
    ensures DecryptedUpTo(x, input, SliceAssign(output, startIdx, 32, entry), n + 1)
  {
    hide DecryptedBlock;
    var after := SliceAssign(output, startIdx, 32, entry);
    assert after == if n == 0 then entry else output + entry;
    forall b | 0 <= b < n + 1
      ensures 32 * b + 32 <= |after| && Block(after, b) == DecryptedBlock(x, input, b)
    {
      if b < n {
        SliceOfPrefix(output, entry, 32 * b, 32 * b + 32);
      }
    }
  }

  /** Block k of a page, given how many slots were deciphered before it. */
  lemma {:induction false} BlockStep(x: Externals, input: seq<byte>, page: nat, k: nat)
    requires k < BLOCKS_PER_PAGE && 32 * (BLOCKS_PER_PAGE * page + k) + 32 <= |input|
    ensures var b := BLOCKS_PER_PAGE * page + k;
      var kept := k < 2 || Block(input, b) == Blank(32);
      DecryptedBlock(x, input, b)
        == (if kept then Block(input, b) else x.decrypt(Tweak(page, Rank(input, page, k)), Block(input, b))) &&
      Rank(input, page, k + 1) == Rank(input, page, k) + (if kept then 0 else 1)
  {
    hide Block, Blank, Tweak;
    var b := BLOCKS_PER_PAGE * page + k;
    assert b / BLOCKS_PER_PAGE == page && b % BLOCKS_PER_PAGE == k;
  }

  /** Walks the image block by block. */
  method Decrypt(input: seq<byte>, x: Externals) returns (outputBuf: seq<byte>)
    requires |input| % 32 == 0 && |input| <= PAGE_SIZE * 0x1_0000_0000
    ensures DecryptedUpTo(x, input, outputBuf, |input| / 32)
  {
    hide SliceAssign, Blank, Tweak, DecryptedBlock, Rank;
    var decryptedEntryNo, fileEntryNo, pageNum, startEntryOffset := 0, 0, 0, 0;
    var emptyDataEntry := Blank(32);
    outputBuf := [BLANK_BYTE];
    assert Rank(input, 0, 0) == 0;
    var read := 0;
    while true
      invariant 0 <= read <= |input| / 32 && startEntryOffset == 32 * read
      invariant 0 <= fileEntryNo <= BLOCKS_PER_PAGE && pageNum >= 0 && read == BLOCKS_PER_PAGE * pageNum + fileEntryNo
      invariant decryptedEntryNo == Rank(input, pageNum, fileEntryNo)
      invariant DecryptedUpTo(x, input, outputBuf, read)
      decreases |input| / 32 - read
    {
      hide DecryptedUpTo;
      if fileEntryNo == 128 {
        decryptedEntryNo, fileEntryNo, pageNum := 0, 0, pageNum + 1;
        assert Rank(input, pageNum, 0) <= 0;
      }
      if 32 * read == |input| {
        break;
      }
      var dataEntry := Block(input, read);
      BlockStep(x, input, pageNum, fileEntryNo);
      TweakIsLE(pageNum, decryptedEntryNo);
      if dataEntry != emptyDataEntry && fileEntryNo != 0 && fileEntryNo != 1 {
        dataEntry := DecryptData(dataEntry, pageNum, decryptedEntryNo, x);
        decryptedEntryNo := decryptedEntryNo + 1;
      }
      var writeEntryNo := pageNum * PAGE_SIZE + fileEntryNo;
      var startIdx := startEntryOffset + writeEntryNo * 32;
      var endIdx := 32;
      Appends(x, input, outputBuf, read, startIdx, dataEntry);
      outputBuf := SliceAssign(outputBuf, startIdx, endIdx, dataEntry);
      fileEntryNo := fileEntryNo + 1;
      startEntryOffset := startEntryOffset + 32;
      read := read + 1;
    }
  }

  // ----- when decryption undoes encryption -----

  function DecryptedImage(x: Externals, image: seq<byte>): (s: seq<byte>)
    requires |image| % 32 == 0
    ensures |s| == |image|
  {
    seq(|image|, j requires 0 <= j < |image| => DecryptedBlock(x, image, j / 32)[j % 32])
  }

  lemma {:induction false} BlocksEqual(a: seq<byte>, b: seq<byte>)
    requires |a| == |b| && |a| % 32 == 0
    requires forall i :: 0 <= i < |a| / 32 ==> Block(a, i) == Block(b, i)
    ensures a == b
  {
    forall j | 0 <= j < |a|
      ensures a[j] == b[j]
    {
      assert Block(a, j / 32)[j % 32] == a[j];
      assert Block(b, j / 32)[j % 32] == b[j];
    }
  }

  lemma {:induction false} DecryptedImageBlock(x: Externals, image: seq<byte>, b: nat)
    requires |image| % 32 == 0 && b < |image| / 32
    ensures Block(DecryptedImage(x, image), b) == DecryptedBlock(x, image, b)
  {
    hide DecryptedBlock;
    forall o | 0 <= o < 32
      ensures DecryptedImage(x, image)[32 * b + o] == DecryptedBlock(x, image, b)[o]
    {
      assert (32 * b + o) / 32 == b && (32 * b + o) % 32 == o;
    }
  }

  /** The method delivers the image of decrypted blocks, unless its input is empty. */
  lemma {:induction false} DecryptedUpToEnd(x: Externals, input: seq<byte>, output: seq<byte>)
    requires |input| % 32 == 0 && DecryptedUpTo(x, input, output, |input| / 32)
    ensures output == if input == [] then [BLANK_BYTE] else DecryptedImage(x, input)
  {
    if input != [] {
      forall b | 0 <= b < |input| / 32
        ensures Block(output, b) == Block(DecryptedImage(x, input), b)
      {
        DecryptedImageBlock(x, input, b);
      }
      BlocksEqual(output, DecryptedImage(x, input));
    }
  }

  /** Per tweak, deciphering undoes enciphering. */
  ghost predicate CipherInverts(x: Externals) {
    forall t, s: Slot :: x.decrypt(t, x.encrypt(t, s)) == s
  }

  /** Slot i of page p is written, and its ciphertext looks erased. */
  predicate BlankCipherAt(x: Externals, st: State, p: nat, i: nat)
    requires Writable(st)
  {
    p < |st.pages| && i < |st.SlotsOf(x, p)| && x.encrypt(Tweak(p, i), st.SlotsOf(x, p)[i]) == Blank(32)
  }

  /** The ciphertext of no written slot looks erased. */
  ghost predicate NoBlankCipher(x: Externals, st: State)
    requires Writable(st)
  {
    forall p: nat, i: nat :: !BlankCipherAt(x, st, p, i)
  }

  /** Decrypting the encrypted image gives the plain image. */
  predicate Restores(x: Externals, st: State)
    requires Writable(st)
  {
    |Image(x, true, st)| % 32 == 0 && DecryptedImage(x, Image(x, true, st)) == Image(x, false, st)
  }

  /** The slots of page p of a closed image. */
  function ClosedSlots(x: Externals, st: State, p: nat): seq<Slot>
    requires st.WellFormed() && p <= st.Total()
  {
    if p < |st.pages| then st.SlotsOf(x, p) else []
  }

  /** A block of an image is a block of one of its pages. */
  lemma {:induction false} PageBlock(x: Externals, encrypted: bool, st: State, p: nat, k: nat)
    requires Writable(st) && p <= st.Total() && k < BLOCKS_PER_PAGE
    ensures |Image(x, encrypted, st)| == PAGE_SIZE * (st.Total() + 1)
    ensures Block(Image(x, encrypted, st), BLOCKS_PER_PAGE * p + k) == Block(ClosedPage(x, encrypted, st, p), k)
  {
    hide Image, ClosedPage;
    ImagePage(x, encrypted, st, p);
    SliceOfSlice(Image(x, encrypted, st), PAGE_SIZE * p, PAGE_SIZE * (p + 1), 32 * k, 32 * k + 32);
  }

  lemma {:induction false} SliceOfSlice(s: seq<byte>, from: nat, to: nat, i: nat, j: nat)
    requires from <= to <= |s| && i <= j <= to - from
    ensures s[from..to][i..j] == s[from + i..from + j]
  {
    forall o | 0 <= o < j - i
      ensures s[from..to][i..j][o] == s[from + i..from + j][o]
    {
    }
  }

  lemma {:induction false} ClosedPageIs(x: Externals, encrypted: bool, st: State, p: nat)
    requires Writable(st) && p < st.Total()
    ensures ClosedPage(x, encrypted, st, p) == PageBytes(x, encrypted, p, st.version, ClosedSlots(x, st, p), true)
  {
    hide PageBytes;
    EmptyPageSlots(x);
  }

  /** A block of the data area. */
  lemma {:induction false} DataBlock(x: Externals, encrypted: bool, st: State, p: nat, k: nat)
    requires Writable(st) && p <= st.Total() && 2 <= k < BLOCKS_PER_PAGE
    ensures Block(ClosedPage(x, encrypted, st, p), k)
         == var slots := ClosedSlots(x, st, p);
            if k - 2 < |slots| then Stored(x, encrypted, p, k - 2, slots[k - 2]) else Blank(32)
  {
    hide ClosedPage, PageBytes, Stored, ClosedSlots, Written;
    if p < st.Total() {
      var slots := ClosedSlots(x, st, p);
      ClosedPageIs(x, encrypted, st, p);
      PageSlotAt(x, encrypted, p, st.version, slots, true, k - 2);
      assert SlotAt(PageBytes(x, encrypted, p, st.version, slots, true), k - 2)
          == Block(PageBytes(x, encrypted, p, st.version, slots, true), k);
    } else {
      ReservedPage(x, encrypted, st);
      assert Block(Blank(PAGE_SIZE), k) == Blank(32);
    }
  }

  lemma {:induction false} ReservedPage(x: Externals, encrypted: bool, st: State)
    requires Writable(st)
    ensures ClosedPage(x, encrypted, st, st.Total()) == Blank(PAGE_SIZE)
    ensures ClosedSlots(x, st, st.Total()) == []
  {
  }

  /** Headers and bitmaps are the same with and without encryption. */
  lemma {:induction false} MetaBlock(x: Externals, st: State, p: nat, k: nat)
    requires Writable(st) && p <= st.Total() && k < 2
    ensures Block(ClosedPage(x, true, st, p), k) == Block(ClosedPage(x, false, st, p), k)
  {
    hide ClosedPage, PageHeader, BitmapByte, Stored, PageSlots;
    if p < st.Total() {
      var slots := ClosedSlots(x, st, p);
      ClosedPageIs(x, true, st, p);
      ClosedPageIs(x, false, st, p);
      forall j | 0 <= j < FIRST_ENTRY_OFFSET
        ensures ClosedPage(x, true, st, p)[j] == ClosedPage(x, false, st, p)[j]
      {
        assert PageByte(x, true, p, st.version, slots, true, j) == PageByte(x, false, p, st.version, slots, true, j);
      }
    } else {
      ReservedPage(x, true, st);
      ReservedPage(x, false, st);
    }
  }

  lemma {:induction false} ClosedSlotsBound(x: Externals, st: State, p: nat, k: nat)
    requires Writable(st) && p <= st.Total() && 2 <= k && NoBlankCipher(x, st)
    ensures |ClosedSlots(x, st, p)| <= MAX_ENTRIES
    ensures k > 2 && k - 3 < |ClosedSlots(x, st, p)| ==>
      Stored(x, true, p, k - 3, ClosedSlots(x, st, p)[k - 3]) != Blank(32)
  {
    if k > 2 {
      assert !BlankCipherAt(x, st, p, k - 3);
    }
  }

  /** In a page of which no ciphertext looks erased, a slot's rank is its number. */
  lemma {:induction false} RankIsSlot(x: Externals, st: State, p: nat, k: nat)
    requires Writable(st) && p <= st.Total() && 2 <= k <= BLOCKS_PER_PAGE && NoBlankCipher(x, st)
    ensures 32 * (BLOCKS_PER_PAGE * p + k) <= |Image(x, true, st)|
    ensures Rank(Image(x, true, st), p, k) == Min(k - 2, |ClosedSlots(x, st, p)|)
  {
    hide Image, ClosedPage, Blank, Block, Tweak, Writable, ClosedSlots, NoBlankCipher, DecryptedBlock, Rank, Stored;
    var image := Image(x, true, st);
    PageBlock(x, true, st, p, k - 1);
    BlockInImage(st, p, k - 1);
    if k == 2 {
      assert Rank(image, p, 2) <= Max(0, 2 - 2);
    } else {
      RankIsSlot(x, st, p, k - 1);
      ClosedSlotsBound(x, st, p, k);
      DataBlock(x, true, st, p, k - 1);
      BlockStep(x, image, p, k - 1);
    }
  }

  lemma {:induction false} BlockInImage(st: State, p: nat, k: nat)
    requires p <= st.Total() && k < BLOCKS_PER_PAGE
    ensures 32 * (BLOCKS_PER_PAGE * p + k) + 32 <= PAGE_SIZE * (st.Total() + 1)
  {
  }

  /** Encrypting changes no page break, header, bitmap or count: the two images differ only in the
      written slots, and there one holds the ciphertext of the other under the slot's own address. */
  lemma {:induction false} EncryptionLayoutNeutral(x: Externals, st: State, p: nat, k: nat)
    requires Writable(st) && p <= st.Total() && k < BLOCKS_PER_PAGE
    ensures |Image(x, true, st)| == |Image(x, false, st)| == PAGE_SIZE * (st.Total() + 1)
    ensures var b := BLOCKS_PER_PAGE * p + k;
      Block(Image(x, true, st), b)
        == if 2 <= k < 2 + |ClosedSlots(x, st, p)| then x.encrypt(Tweak(p, k - 2), Block(Image(x, false, st), b))
           else Block(Image(x, false, st), b)
  {
    hide Image, ClosedPage;
    PageBlock(x, true, st, p, k);
    PageBlock(x, false, st, p, k);
    if k < 2 {
      MetaBlock(x, st, p, k);
    } else {
      DataBlock(x, true, st, p, k);
      DataBlock(x, false, st, p, k);
    }
  }

  /** The tweak of a block is its own byte position: block b of the encrypted image is the ciphertext of
      block b of the plain one under the address 32 * b, where a slot is written, and equal elsewhere. */
  lemma {:induction false} TweakIsPosition(x: Externals, st: State, b: nat)
    requires Writable(st) && b < BLOCKS_PER_PAGE * (st.Total() + 1)
    ensures |Image(x, true, st)| == |Image(x, false, st)| == 32 * BLOCKS_PER_PAGE * (st.Total() + 1)
    ensures var p, k := b / BLOCKS_PER_PAGE, b % BLOCKS_PER_PAGE;
      var written := p < |st.pages| && 2 <= k < 2 + Used(st.pages[p]);
      Block(Image(x, true, st), b)
        == if written then x.encrypt(LE(32 * b, 16), Block(Image(x, false, st), b))
           else Block(Image(x, false, st), b)
  {
    hide Image, Block, Tweak, PageSlots;
    var p, k := b / BLOCKS_PER_PAGE, b % BLOCKS_PER_PAGE;
    EncryptionLayoutNeutral(x, st, p, k);
    if 2 <= k {
      TweakIsLE(p, k - 2);
      assert 4096 * p + 64 + 32 * (k - 2) == 32 * b;
    }
  }

  lemma {:induction false} DecryptedBlockRoundTrip(x: Externals, st: State, b: nat)
    requires Writable(st) && CipherInverts(x) && NoBlankCipher(x, st)
    requires b < BLOCKS_PER_PAGE * (st.Total() + 1)
    ensures |Image(x, true, st)| == |Image(x, false, st)| == PAGE_SIZE * (st.Total() + 1)
    ensures DecryptedBlock(x, Image(x, true, st), b) == Block(Image(x, false, st), b)
  {
    hide Image, Rank, Block, Tweak, ClosedSlots, Writable, NoBlankCipher;
    var p, k := b / BLOCKS_PER_PAGE, b % BLOCKS_PER_PAGE;
    EncryptionLayoutNeutral(x, st, p, k);
    BlockInImage(st, p, k);
    if k >= 2 {
      ClosedSlotsBound(x, st, p, k + 1);
      RankIsSlot(x, st, p, k);
      PageBlock(x, false, st, p, k);
      DataBlock(x, false, st, p, k);
    }
  }

  /** Decrypting the encrypted image gives the plain one when no ciphertext looks erased. */
  lemma {:induction false} EncryptDecryptRoundTrip(x: Externals, st: State)
    requires Writable(st) && CipherInverts(x) && NoBlankCipher(x, st)
    ensures Restores(x, st)
  {
    hide Image, DecryptedImage, DecryptedBlock, NoBlankCipher, Writable, Block;
    ImageBlocks(x, st);
    forall b | 0 <= b < |Image(x, true, st)| / 32
      ensures Block(DecryptedImage(x, Image(x, true, st)), b) == Block(Image(x, false, st), b)
    {
      DecryptedImageBlock(x, Image(x, true, st), b);
      DecryptedBlockRoundTrip(x, st, b);
    }
    BlocksEqual(DecryptedImage(x, Image(x, true, st)), Image(x, false, st));
  }

  /** An image is a whole number of blocks, as many with encryption as without. */
  lemma {:induction false} ImageBlocks(x: Externals, st: State)
    requires Writable(st)
    ensures |Image(x, true, st)| == |Image(x, false, st)| == PAGE_SIZE * (st.Total() + 1)
    ensures |Image(x, true, st)| % 32 == 0 && |Image(x, true, st)| / 32 == BLOCKS_PER_PAGE * (st.Total() + 1)
  {
    hide Image, Block, ClosedPage;
    PageBlock(x, true, st, 0, 0);
    PageBlock(x, false, st, 0, 0);
  }

  lemma {:induction false} ErasedStays(x: Externals, image: seq<byte>, b: nat)
    requires 32 * b + 32 <= |image| && Block(image, b) == Blank(32)
    ensures DecryptedBlock(x, image, b) == Blank(32)
  {
  }

  /** Slot i of page p is written and not erased, but its ciphertext looks it. */
  predicate LostAt(x: Externals, st: State, p: nat, i: nat)
    requires Writable(st)
  {
    BlankCipherAt(x, st, p, i) && st.SlotsOf(x, p)[i] != Blank(32)
  }

  /** An erased block of the encrypted image then stands for a block of the plain image that is not. */
  lemma {:induction false} BlankCipherBlock(x: Externals, st: State, p: nat, i: nat)
    requires Writable(st) && LostAt(x, st, p, i)
    ensures i < MAX_ENTRIES && p <= st.Total()
    ensures |Image(x, true, st)| == |Image(x, false, st)| == PAGE_SIZE * (st.Total() + 1)
    ensures var b := BLOCKS_PER_PAGE * p + (i + 2);
      Block(Image(x, true, st), b) == Blank(32) != Block(Image(x, false, st), b)
  {
    hide Image, ClosedPage, Tweak, Blank, Block, ClosedSlots, LostAt;
    SlotIsBlank(x, st, p, i);
    PageBlock(x, true, st, p, i + 2);
    PageBlock(x, false, st, p, i + 2);
    DataBlock(x, true, st, p, i + 2);
    DataBlock(x, false, st, p, i + 2);
  }

  /** Decryption leaves such a block erased. */
  lemma {:induction false} ErasedBlockDiffers(x: Externals, st: State, b: nat)
    requires Writable(st) && |Image(x, true, st)| == |Image(x, false, st)| && |Image(x, true, st)| % 32 == 0
    requires b < |Image(x, true, st)| / 32
    requires Block(Image(x, true, st), b) == Blank(32) != Block(Image(x, false, st), b)
    ensures !Restores(x, st)
  {
    hide Image, DecryptedImage, DecryptedBlock, Block, Writable, Blank;
    ErasedStays(x, Image(x, true, st), b);
    DecryptedImageBlock(x, Image(x, true, st), b);
  }

  lemma {:induction false} BlankCipherBreaks(x: Externals, st: State, p: nat, i: nat)
    requires Writable(st) && LostAt(x, st, p, i)
    ensures !Restores(x, st)
  {
    hide Image, Block, Writable, Blank, LostAt, Restores;
    BlankCipherBlock(x, st, p, i);
    ErasedBlockDiffers(x, st, BLOCKS_PER_PAGE * p + (i + 2));
  }

  lemma {:induction false} SlotIsBlank(x: Externals, st: State, p: nat, i: nat)
    requires Writable(st) && LostAt(x, st, p, i)
    ensures p < |st.pages| <= st.Total() && i < |ClosedSlots(x, st, p)| <= MAX_ENTRIES
    ensures x.encrypt(Tweak(p, i), ClosedSlots(x, st, p)[i]) == Blank(32) && ClosedSlots(x, st, p)[i] != Blank(32)
  {
  }

  /** No written slot that holds an erased block keeps it under encryption. */
  ghost predicate ErasedSlotsMove(x: Externals, st: State)
    requires Writable(st)
  {
    forall p: nat, i: nat :: BlankCipherAt(x, st, p, i) ==> LostAt(x, st, p, i)
  }

  /** The exact condition: when no erased block is stored as an erased block, decryption restores the
      image if and only if no ciphertext looks erased. */
  lemma {:induction false} DecryptsIffNoBlankCipher(x: Externals, st: State)
    requires Writable(st) && CipherInverts(x) && ErasedSlotsMove(x, st)
    ensures Restores(x, st) <==> NoBlankCipher(x, st)
  {
    hide Restores, BlankCipherAt;
    if NoBlankCipher(x, st) {
      EncryptDecryptRoundTrip(x, st);
    } else {
      var p: nat, i: nat :| BlankCipherAt(x, st, p, i);
      BlankCipherBreaks(x, st, p, i);
    }
  }

  /** From rows through encryption and decryption back to rows. */
  lemma {:induction false} EncryptedReadBack(x: Externals, version: Version, size: nat, rows: seq<Row>)
    requires Addressable(size) && Run(Opened(version, size), rows).outcome.Done? && CipherInverts(x)
    ensures Storable(rows, 0)
    ensures var st := Run(Opened(version, size), rows).st;
      Writable(st) &&
      (NoBlankCipher(x, st) ==>
        Restores(x, st) && ReadImage(x, DecryptedImage(x, Image(x, true, st)), version) == Some(Records(rows, 0)))
  {
    hide Run, Image, ReadImage, DecryptedImage, NoBlankCipher;
    WriteReadRoundTrip(x, version, size, rows);
    var st := Run(Opened(version, size), rows).st;
    if NoBlankCipher(x, st) { EncryptDecryptRoundTrip(x, st); }
  }

  // ----- an input that decryption does not restore -----

  /** A namespace and in it a blob of the 32 bytes that the cipher turns into an erased block when
      they stand in slot 2 of the first page. */
  function FatalRows(x: Externals, ns: Key, key: Key): seq<Row> {
    [NamespaceRow(ns), BlobRow(key, x.decrypt(Tweak(0, 2), Blank(32)))]
  }

  /** The slots of a page that starts with the namespace's entry and the blob's first chunk. */
  lemma {:induction false} ThirdSlot(x: Externals, e: Entry, d: Entry)
    requires e.IntEntry? && e.WellFormed() && d.DataEntry? && |d.data| == 32
    ensures |PageSlots(x, [e, d])| == 3 && PageSlots(x, [e, d])[2] == d.data
  {
    hide Header;
    assert [e, d] == ([] + [e]) + [d];
    PageSlotsSnoc(x, [], e);
    PageSlotsSnoc(x, [e], d);
    EmptyPageSlots(x);
    assert Slots(x, e) == [Header(x, e)] + Chop([]);
    assert Slots(x, d) == [Header(x, d)] + Chop(d.data);
    forall o | 0 <= o < SLOT_SIZE
      ensures ChopSlot(d.data, 0)[o] == d.data[o]
    {
      assert PaddedByte(d.data, SLOT_SIZE * 0 + o) == d.data[o];
    }
    assert Chop(d.data)[0] == ChopSlot(d.data, 0) == d.data;
  }

  /** The entry with which the blob starts. */
  function FirstData(version: Version, ns: byte, key: Key, data: seq<byte>): Entry {
    if version.V1? then DataEntry(ns, key, BLOB, CHUNK_ANY, data) else DataEntry(ns, key, BLOB_DATA, 0, data)
  }

  lemma {:induction false} NamespaceWritten(version: Version, free: nat, ns: Key)
    ensures WriteRow(State(version, [[]], free, 0, false), NamespaceRow(ns))
         == Step(State(version, [[IntEntry(0, ns, U8, 1)]], free, 1, false), Done)
  {
    Pow256Values();
    var st := State(version, [[]], free, 1, false);
    var e := IntEntry(0, ns, U8, 1);
    assert Used(st.Current()) == 0;
    assert [] + [e] == [e];
    assert st.Add(e).pages == [[e]];
  }

  lemma {:induction false} BlobWritten(version: Version, free: nat, e: Entry, key: Key, data: seq<byte>)
    requires e.IntEntry? && |data| == 32
    ensures var s := WriteRow(State(version, [[e]], free, 1, false), BlobRow(key, data));
      s.outcome.Done? && |s.st.pages| == 1 && [e, FirstData(version, 1, key, data)] <= s.st.pages[0]
  {
    hide Used, WriteChunks;
    var st := State(version, [[e]], free, 1, false);
    var d := FirstData(version, 1, key, data);
    OneSlotUsed(e);
    assert [e] + [d] == [e, d];
    assert st.Add(d).pages == [[e, d]];
    if version.V2? {
      OneChunk(st, key, data);
    }
  }

  lemma {:induction false} OneSlotUsed(e: Entry)
    requires e.IntEntry?
    ensures Used([e]) == 1
  {
    UsedSnoc([], e);
    assert [] + [e] == [e];
  }

  /** A blob that needs one chunk on the current page. */
  lemma {:induction false} OneChunk(st: State, key: Key, data: seq<byte>)
    requires st.Open() && Used(st.Current()) == 1 && |data| == 32
    ensures WriteChunks(st, 1, key, data, 0, 0)
        == PutIndex(st.Add(DataEntry(1, key, BLOB_DATA, 0, data)), 1, key, 32, 1)
  {
    hide Used;
    assert ChunkEnd(st, data, 0) == 32;
    assert data[0..32] == data;
  }

  /** Whatever rows follow, the blob's data stay in slot 2 of the first page. */
  lemma {:induction false} FatalRun(x: Externals, version: Version, size: nat, ns: Key, key: Key, more: seq<Row>)
    requires Addressable(size)
    ensures Run(Opened(version, size), FatalRows(x, ns, key)).outcome.Done?
    ensures var d := FirstData(version, 1, key, x.decrypt(Tweak(0, 2), Blank(32)));
      var st := Run(Opened(version, size), FatalRows(x, ns, key) + more).st;
      st.Open() && [IntEntry(0, ns, U8, 1), d] <= st.pages[0]
  {
    hide WriteRow, Tweak, WellFormedPage, FirstData;
    var rows := FatalRows(x, ns, key);
    var free := size / PAGE_SIZE - 1;
    var st1 := State(version, [[IntEntry(0, ns, U8, 1)]], free, 1, false);
    OpenedState(version, size);
    NamespaceWritten(version, free, ns);
    BlobWritten(version, free, IntEntry(0, ns, U8, 1), key, rows[1].data);
    var st2 := WriteRow(st1, rows[1]).st;
    assert rows[1..] == [rows[1]] && rows[1..][1..] == [];
    assert Run(st1, rows[1..]) == Step(st2, Done);
    assert (rows + more)[1..] == [rows[1]] + more && ([rows[1]] + more)[1..] == more;
    assert Run(st1, [rows[1]] + more) == Run(st2, more);
    RunGrows(st2, more);
    RunKeeps(st2, more);
  }

  /** Decryption does fail: for every cipher that is a bijection and moves the erased block at one
      address, every partition that starts with these rows is not restored, in either version and
      whatever its size and the rows after them. */
  lemma {:induction false} DecryptionFails(
      x: Externals, version: Version, size: nat, ns: Key, key: Key, more: seq<Row>)
    requires Addressable(size)
    requires x.encrypt(Tweak(0, 2), x.decrypt(Tweak(0, 2), Blank(32))) == Blank(32)
    requires x.encrypt(Tweak(0, 2), Blank(32)) != Blank(32)
    ensures Run(Opened(version, size), FatalRows(x, ns, key)).outcome.Done?
    ensures var st := Run(Opened(version, size), FatalRows(x, ns, key) + more).st;
      Writable(st) && BlankCipherAt(x, st, 0, 2) && !Restores(x, st)
  {
    hide Run, Tweak, Blank, PageSlots, Restores;
    var data := x.decrypt(Tweak(0, 2), Blank(32));
    var e, d := IntEntry(0, ns, U8, 1), FirstData(version, 1, key, data);
    var rows := FatalRows(x, ns, key) + more;
    FatalRun(x, version, size, ns, key, more);
    OpenedState(version, size);
    RunKeeps(Opened(version, size), rows);
    var st := Run(Opened(version, size), rows).st;
    Pow256Values();
    ThirdSlot(x, e, d);
    assert st.pages[0] in st.pages;
    SlotsGrow(x, [e, d], st.pages[0]);
    assert st.SlotsOf(x, 0)[2] == data;
    BlankCipherBreaks(x, st, 0, 2);
  }
}
