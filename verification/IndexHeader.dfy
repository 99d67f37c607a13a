/**
 The header of an index file and its binary form: all fields are 32-bit words.
 */
module IndexHeader {
  import opened Words

  datatype Header = Header(firstFree: int, numPages: int, root: int, types: seq<int>, lens: seq<int>,
                           colTotLen: int, order: int, keysSize: int, firstLeaf: int, lastLeaf: int)

  /** The length of the binary form. */
  function TotLen(colNum: nat): nat {
    4 * 4 + 4 * 6 + 4 * colNum + 4 * colNum
  }

  ghost function WordsOf(h: Header): seq<int> {
    [TotLen(|h.types|), h.firstFree, h.numPages, h.root, |h.types|] + h.types + h.lens +
    [h.colTotLen, h.order, h.keysSize, h.firstLeaf, h.lastLeaf]
  }

  /** Which word holds what. */
  lemma Layout(h: Header)
    requires |h.types| == |h.lens|
    ensures var ws, n := WordsOf(h), |h.types|;
            && |ws| == 10 + 2 * n && 4 * |ws| == TotLen(n)
            && ws[0] == TotLen(n) && ws[1] == h.firstFree && ws[2] == h.numPages && ws[3] == h.root && ws[4] == n
            && ws[5..5 + n] == h.types && ws[5 + n..5 + n + n] == h.lens
            && ws[5 + 2 * n] == h.colTotLen && ws[6 + 2 * n] == h.order && ws[7 + 2 * n] == h.keysSize
            && ws[8 + 2 * n] == h.firstLeaf && ws[9 + 2 * n] == h.lastLeaf
  {
  }

  /** A type and a length for every column, all numbers in range. */
  ghost predicate Storable(h: Header) {
    |h.types| == |h.lens| && AllInt32(WordsOf(h))
  }

  class IxFileHdr {
    var firstFree: int
    var numPages: int
    var root: int
    var colNum: int
    var types: seq<int>
    var lens: seq<int>
    var colTotLen: int
    var order: int
    var keysSize: int
    var firstLeaf: int
    var lastLeaf: int
    var totLen: int

    ghost function Value(): Header
      reads this
    {
      Header(firstFree, numPages, root, types, lens, colTotLen, order, keysSize, firstLeaf, lastLeaf)
    }

    constructor ()
      ensures types == [] && lens == [] && totLen == 0 && colNum == 0
    {
      types, lens, totLen, colNum := [], [], 0, 0;
    }

    method UpdateTotLen()
      requires colNum >= 0
      modifies this`totLen
      ensures totLen == TotLen(colNum)
    {
      totLen := 0;
      totLen := totLen + (4 * 4 + 4 * 6);
      totLen := totLen + (4 * colNum + 4 * colNum);
    }

    /** Writes exactly `totLen` bytes. */
    method Serialize(dest: array<Byte>)
      requires Storable(Value()) && colNum == |types| && totLen == TotLen(colNum) && totLen <= dest.Length
      modifies dest
      ensures StartsWith(dest[..], WordsOf(Value())) && 4 * |WordsOf(Value())| == totLen
      ensures dest[totLen..] == old(dest[totLen..])
    {
      hide Written, WordsOf, AllInt32, Encode;
      ghost var was, h, ws := dest[..], Value(), WordsOf(Value());
      Layout(h);
      NothingWritten(was, ws);
      var offset := Put(dest, 0, totLen, was, ws, 0);
      offset := Put(dest, offset, firstFree, was, ws, 1);
      offset := Put(dest, offset, numPages, was, ws, 2);
      offset := Put(dest, offset, root, was, ws, 3);
      offset := Put(dest, offset, colNum, was, ws, 4);
      offset := PutMany(dest, offset, types, was, ws, 5);
      offset := PutMany(dest, offset, lens, was, ws, 5 + colNum);
      offset := Put(dest, offset, colTotLen, was, ws, 5 + 2 * colNum);
      offset := Put(dest, offset, order, was, ws, 6 + 2 * colNum);
      offset := Put(dest, offset, keysSize, was, ws, 7 + 2 * colNum);
      offset := Put(dest, offset, firstLeaf, was, ws, 8 + 2 * colNum);
      offset := Put(dest, offset, lastLeaf, was, ws, 9 + 2 * colNum);
      AllWritten(dest[..], was, ws);
      assert dest[..totLen] == dest[..][..totLen] && dest[totLen..] == dest[..][totLen..];
    }

    /** Reads a header back; its columns are added to the columns already present. */
    method Deserialize(src: Bytes, ghost h: Header)
      requires Storable(h) && StartsWith(src, WordsOf(h))
      modifies this
      ensures Value() == h.(types := old(types) + h.types, lens := old(lens) + h.lens)
      ensures colNum == |h.types| && totLen == TotLen(colNum)
    {
      hide StartsWith, WordsOf, AllInt32;
      ghost var ws := WordsOf(h);
      Layout(h);
      var offset := 0;
      totLen, offset := Get(src, offset, ws, 0);
      firstFree, offset := Get(src, offset, ws, 1);
      numPages, offset := Get(src, offset, ws, 2);
      root, offset := Get(src, offset, ws, 3);
      colNum, offset := Get(src, offset, ws, 4);
      types, offset := GetMany(src, offset, colNum, types, ws, 5);
      lens, offset := GetMany(src, offset, colNum, lens, ws, 5 + colNum);
      colTotLen, offset := Get(src, offset, ws, 5 + 2 * colNum);
      order, offset := Get(src, offset, ws, 6 + 2 * colNum);
      keysSize, offset := Get(src, offset, ws, 7 + 2 * colNum);
      firstLeaf, offset := Get(src, offset, ws, 8 + 2 * colNum);
      lastLeaf, offset := Get(src, offset, ws, 9 + 2 * colNum);
    }
  }

  /** What is written by one object is read back by another. */
  method Reopen(hdr: IxFileHdr, page: array<Byte>) returns (copy: IxFileHdr)
    requires Storable(hdr.Value()) && hdr.colNum == |hdr.types| && TotLen(|hdr.types|) <= page.Length
    modifies hdr`totLen, page
    ensures copy.Value() == hdr.Value() && copy.colNum == hdr.colNum && copy.totLen == hdr.totLen
  {
    hdr.UpdateTotLen();
    hdr.Serialize(page);
    copy := new IxFileHdr();
    copy.Deserialize(page[..], hdr.Value());
  }
}
