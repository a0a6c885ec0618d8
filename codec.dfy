/**
 * The persistence format of a model (generator.cpp:25-42, 104-131, 151-191):
 * a header of seven sizes, the word buffer as raw characters, the word
 * offsets, the window buffer, the window offsets, and then every table row
 * as (prefix id, entry count) followed by (word id, count, successor) per
 * entry.
 *
 * A stream is a sequence of cells: one 64-bit word or one character each.
 * `load` reads in a fixed order; reading a cell of the wrong kind, or past
 * the end, is a read failure.
 */
module Codec {
  import opened Lex
  import opened Generator

  datatype Cell = Size(v: u64) | Char(c: byte)

  /** The seven words written first (generator.cpp:25-34). */
  datatype Header = Header(
    prefSize: u64,
    wordDataSize: u64,
    wordIndexSize: u64,
    prefDataSize: u64,
    prefIndexSize: u64,
    tableSize: u64,
    checksum: u64)

  /**
   * Why `load` stopped. In the source every one of these is the
   * std::ios_base::failure thrown by the stream's exception mask; the model
   * tells them apart.
   */
  datatype Failure =
    | ReadFailed            // the stream ended, or held the wrong kind of cell
    | BadChecksum           // generator.cpp:158-159
    | WordOffsetOutOfRange  // generator.cpp:166-167
    | PrefixOffsetOutOfRange // generator.cpp:176-177

  datatype Result<T> = Ok(value: T) | Fail(error: Failure)

  /** What `load` reports. */
  datatype Status = Done | Failed(why: Failure)

  // ---------------------------------------------------------------------
  // The checksum (generator.cpp:35-41)
  // ---------------------------------------------------------------------

  /**
   * A size_t seen as 64 bits, the type the checksum is folded in:
   * `hash` gives std::hash<size_t>'s result, and the stored checksum is the
   * folded word read back as a size_t.
   */
  datatype Word64 = Word64(bits: bv64)

  function Xor(a: Word64, b: Word64): Word64
  {
    Word64(a.bits ^ b.bits)
  }

  /** The size_t a word is stored as, and the word a stored size_t is read as. */
  function AsSize(w: Word64): u64
  {
    w.bits as int
  }

  function AsWord(v: u64): Word64
  {
    Word64(v as bv64)
  }

  lemma AsWordAsSize(w: Word64)
    ensures AsWord(AsSize(w)) == w
  {
  }

  /** The six size fields, in the order the checksum folds them. */
  function Fields(h: Header): seq<u64>
  {
    [h.prefSize, h.wordDataSize, h.wordIndexSize, h.prefDataSize, h.prefIndexSize, h.tableSize]
  }

  /** std::accumulate with `l ^ hash(r)`. */
  function XorFold(acc: Word64, xs: seq<u64>, hash: u64 -> Word64): Word64
    decreases |xs|
  {
    if xs == [] then acc else XorFold(Xor(acc, hash(xs[0])), xs[1..], hash)
  }

  /** `header::hash` (generator.cpp:35-41); std::hash<size_t> is the parameter. */
  function HeaderHash(h: Header, hash: u64 -> Word64): Word64
  {
    XorFold(Word64(0), Fields(h), hash)
  }

  /** One more value folded in: the fold so far, xor the value's hash. */
  lemma {:induction false} XorFoldSnoc(acc: Word64, xs: seq<u64>, x: u64, hash: u64 -> Word64)
    ensures XorFold(acc, xs + [x], hash) == Xor(XorFold(acc, xs, hash), hash(x))
    decreases |xs|
  {
    if xs != [] {
      assert (xs + [x])[1..] == xs[1..] + [x];
      XorFoldSnoc(Xor(acc, hash(xs[0])), xs[1..], x, hash);
    }
  }

  /**
   * The checksum is the exclusive or of the hashes of the six size fields
   * (the fold starts from zero).
   */
  lemma HeaderHashXorsFields(h: Header, hash: u64 -> Word64)
    ensures HeaderHash(h, hash)
      == Xor(Xor(Xor(Xor(Xor(hash(h.prefSize), hash(h.wordDataSize)), hash(h.wordIndexSize)),
                 hash(h.prefDataSize)), hash(h.prefIndexSize)), hash(h.tableSize))
  {
    var xs := Fields(h);
    var z := Word64(0);
    XorZero(hash(xs[0]));
    XorFoldSnoc(z, [], xs[0], hash);
    assert [] + [xs[0]] == xs[..1];
    XorFoldSnoc(z, xs[..1], xs[1], hash);
    assert xs[..1] + [xs[1]] == xs[..2];
    XorFoldSnoc(z, xs[..2], xs[2], hash);
    assert xs[..2] + [xs[2]] == xs[..3];
    XorFoldSnoc(z, xs[..3], xs[3], hash);
    assert xs[..3] + [xs[3]] == xs[..4];
    XorFoldSnoc(z, xs[..4], xs[4], hash);
    assert xs[..4] + [xs[4]] == xs[..5];
    XorFoldSnoc(z, xs[..5], xs[5], hash);
    assert xs[..5] + [xs[5]] == xs;
  }

  lemma XorZero(w: Word64)
    ensures Xor(Word64(0), w) == w
  {
  }

  lemma BitsCancelRight(a: bv64, b: bv64, c: bv64)
    ensures b ^ a == c ^ a <==> b == c
  {
  }

  lemma BitsCancelLeft(a: bv64, b: bv64, c: bv64)
    ensures a ^ b == a ^ c <==> b == c
  {
  }

  /** Folding the same values from two starting words keeps them apart or equal. */
  lemma {:induction false} XorFoldKeepsDifference(acc: Word64, acc': Word64, xs: seq<u64>, hash: u64 -> Word64)
    ensures XorFold(acc, xs, hash) == XorFold(acc', xs, hash) <==> acc == acc'
    decreases |xs|
  {
    if xs != [] {
      BitsCancelRight(hash(xs[0]).bits, acc.bits, acc'.bits);
      XorFoldKeepsDifference(Xor(acc, hash(xs[0])), Xor(acc', hash(xs[0])), xs[1..], hash);
    }
  }

  lemma {:induction false} XorFoldSplits(acc: Word64, xs: seq<u64>, i: nat, hash: u64 -> Word64)
    requires i <= |xs|
    ensures XorFold(acc, xs, hash) == XorFold(XorFold(acc, xs[..i], hash), xs[i..], hash)
    decreases i
  {
    if i > 0 {
      assert xs[..i][1..] == xs[1..][..i - 1];
      assert xs[i..] == xs[1..][i - 1..];
      XorFoldSplits(Xor(acc, hash(xs[0])), xs[1..], i - 1, hash);
    }
  }

  /** The fold of ys, seen as the fold of the common part before i, then ys[i], then the common rest. */
  lemma FoldAround(xs: seq<u64>, ys: seq<u64>, i: nat, hash: u64 -> Word64)
    requires |xs| == |ys| && i < |xs|
    requires xs[..i] == ys[..i] && xs[i + 1..] == ys[i + 1..]
    ensures XorFold(Word64(0), ys, hash)
         == XorFold(Xor(XorFold(Word64(0), xs[..i], hash), hash(ys[i])), xs[i + 1..], hash)
  {
    XorFoldSplits(Word64(0), ys, i, hash);
    assert ys[i..][1..] == ys[i + 1..];
  }

  /** Two folds over lists that differ at one place agree exactly when the hashes there agree. */
  lemma FoldDetectsChange(xs: seq<u64>, ys: seq<u64>, i: nat, hash: u64 -> Word64)
    requires |xs| == |ys| && i < |xs|
    requires xs[..i] == ys[..i] && xs[i + 1..] == ys[i + 1..]
    ensures XorFold(Word64(0), ys, hash) == XorFold(Word64(0), xs, hash) <==> hash(ys[i]) == hash(xs[i])
  {
    FoldAround(xs, ys, i, hash);
    FoldAround(xs, xs, i, hash);
    var p, rest := XorFold(Word64(0), xs[..i], hash), xs[i + 1..];
    XorFoldKeepsDifference(Xor(p, hash(ys[i])), Xor(p, hash(xs[i])), rest, hash);
    BitsCancelLeft(p.bits, hash(ys[i]).bits, hash(xs[i]).bits);
  }

  /**
   * The checksum catches a change of one size field exactly when the hashes
   * of the old and the new value differ (generator.cpp:35-41, 158-159).
   */
  lemma ChecksumDetectsChange(h: Header, h': Header, i: nat, hash: u64 -> Word64)
    requires i < 6
    requires forall j :: 0 <= j < 6 && j != i ==> Fields(h)[j] == Fields(h')[j]
    ensures HeaderHash(h', hash) == HeaderHash(h, hash) <==> hash(Fields(h)[i]) == hash(Fields(h')[i])
  {
    var xs, ys := Fields(h), Fields(h');
    assert xs[..i] == ys[..i];
    assert xs[i + 1..] == ys[i + 1..];
    FoldDetectsChange(xs, ys, i, hash);
  }

  // ---------------------------------------------------------------------
  // What `save` writes (generator.cpp:104-131)
  // ---------------------------------------------------------------------

  /** Every element is a size_t. */
  predicate AllFit(xs: seq<nat>)
  {
    forall i :: 0 <= i < |xs| ==> xs[i] < SIZE_MOD
  }

  /** Every number of the snapshot is a size_t, and so are the buffer and index sizes. */
  ghost predicate Fits(s: Snapshot)
  {
    && s.prefWidth < SIZE_MOD
    && |s.wordData| < SIZE_MOD && |s.wordIndex| < SIZE_MOD
    && |s.prefData| < SIZE_MOD && |s.prefIndex| < SIZE_MOD && |s.table| < SIZE_MOD
    && AllFit(s.wordIndex) && AllFit(s.prefData) && AllFit(s.prefIndex)
    && (forall p :: p in s.table ==> p < SIZE_MOD && |s.table[p]| < SIZE_MOD)
    && (forall p, w :: p in s.table && w in s.table[p] ==>
          w < SIZE_MOD && s.table[p][w].0 < SIZE_MOD && s.table[p][w].1 < SIZE_MOD)
  }

  /** Whether the sizes of a header are those of the snapshot's parts. */
  predicate Describes(h: Header, s: Snapshot)
  {
    && h.prefSize == s.prefWidth && h.wordDataSize == |s.wordData| && h.wordIndexSize == |s.wordIndex|
    && h.prefDataSize == |s.prefData| && h.prefIndexSize == |s.prefIndex| && h.tableSize == |s.table|
  }

  /** The header `save` writes for a snapshot: its sizes, then their checksum. */
  function HeaderOf(s: Snapshot, hash: u64 -> Word64): (h: Header)
    requires Fits(s)
    ensures Describes(h, s)
    ensures HeaderHash(h, hash) == AsWord(h.checksum)
  {
    var h := Header(s.prefWidth, |s.wordData|, |s.wordIndex|, |s.prefData|, |s.prefIndex|, |s.table|, 0);
    AsWordAsSize(HeaderHash(h, hash));
    h.(checksum := AsSize(HeaderHash(h, hash)))
  }

  function HeaderCells(h: Header): seq<Cell>
  {
    [Size(h.prefSize), Size(h.wordDataSize), Size(h.wordIndexSize), Size(h.prefDataSize),
     Size(h.prefIndexSize), Size(h.tableSize), Size(h.checksum)]
  }

  function CharCells(bs: seq<byte>): seq<Cell>
  {
    seq(|bs|, i requires 0 <= i < |bs| => Char(bs[i]))
  }

  function SizeCells(xs: seq<nat>): seq<Cell>
    requires AllFit(xs)
  {
    seq(|xs|, i requires 0 <= i < |xs| => Size(xs[i]))
  }

  /** Whether every entry of a row, and the row's size, is a size_t. */
  ghost predicate RowFits(row: Row)
  {
    && |row| < SIZE_MOD
    && forall w :: w in row ==> w < SIZE_MOD && row[w].0 < SIZE_MOD && row[w].1 < SIZE_MOD
  }

  /** The entries of a row for the given words, three words each. */
  function EntryCells(row: Row, ks: seq<nat>): seq<Cell>
    requires RowFits(row) && forall k :: k in ks ==> k in row
    decreases |ks|
  {
    if ks == [] then []
    else
      var w := ks[0];
      assert w in row;
      [Size(w), Size(row[w].0), Size(row[w].1)] + EntryCells(row, ks[1..])
  }

  /** One row: its prefix id, its size, then its entries in ascending word order. */
  function RowCells(p: u64, row: Row): seq<Cell>
    requires RowFits(row)
  {
    [Size(p), Size(|row|)] + EntryCells(row, InOrder(row.Keys))
  }

  lemma FitsRows(s: Snapshot)
    requires Fits(s)
    ensures forall p :: p in s.table ==> p < SIZE_MOD && RowFits(s.table[p])
  {
  }

  /** Whether every row `order` names is in the table and fits in size_t fields. */
  ghost predicate Listed(t: map<nat, Row>, order: seq<nat>)
  {
    forall i :: 0 <= i < |order| ==> order[i] in t && order[i] < SIZE_MOD && RowFits(t[order[i]])
  }

  /** The rows named by `order`, in that order. */
  function TableCells(t: map<nat, Row>, order: seq<nat>): seq<Cell>
    requires Listed(t, order)
    decreases |order|
  {
    if order == [] then []
    else RowCells(order[0], t[order[0]]) + TableCells(t, order[1..])
  }

  /** Whether `order` visits each key of the table exactly once (an iteration order). */
  ghost predicate Enumerates(order: seq<nat>, t: map<nat, Row>)
  {
    && (forall p :: p in order <==> p in t)
    && (forall i, j :: 0 <= i < j < |order| ==> order[i] != order[j])
  }

  /**
   * Everything `save` writes for a snapshot whose table is visited in
   * `order` (the iteration order of std::unordered_map, which the source
   * leaves unspecified).
   */
  function Encode(s: Snapshot, order: seq<nat>, hash: u64 -> Word64): seq<Cell>
    requires Fits(s) && Enumerates(order, s.table)
  {
    HeaderCells(HeaderOf(s, hash)) + Payload(s, order)
  }

  /** What follows the header: the word buffer, the three index blocks, then the rows. */
  function Payload(s: Snapshot, order: seq<nat>): seq<Cell>
    requires Fits(s) && Enumerates(order, s.table)
  {
    FitsRows(s);
    assert forall i :: 0 <= i < |order| ==> order[i] in order;
    CharCells(s.wordData) + SizeCells(s.wordIndex) + SizeCells(s.prefData) + SizeCells(s.prefIndex)
      + TableCells(s.table, order)
  }

  // ---------------------------------------------------------------------
  // What `load` reads (generator.cpp:151-191)
  // ---------------------------------------------------------------------

  /** One size_t. */
  function ReadSize(s: seq<Cell>): Result<(u64, seq<Cell>)>
  {
    if s != [] && s[0].Size? then Ok((s[0].v, s[1..])) else Fail(ReadFailed)
  }

  /** `is.read` of n size_t values at once. */
  function ReadBlock(s: seq<Cell>, n: nat): (r: Result<(seq<nat>, seq<Cell>)>)
    ensures r.Fail? ==> r.error == ReadFailed
    ensures r.Ok? ==> n <= |s| && |r.value.0| == n && AllFit(r.value.0) && r.value.1 == s[n..]
  {
    if n <= |s| && forall i :: 0 <= i < n ==> s[i].Size? then
      Ok((seq(n, i requires 0 <= i < n => s[i].v), s[n..]))
    else Fail(ReadFailed)
  }

  /** `is.read` of n characters at once. */
  function ReadChars(s: seq<Cell>, n: nat): (r: Result<(seq<byte>, seq<Cell>)>)
    ensures r.Fail? ==> r.error == ReadFailed
    ensures r.Ok? ==> n <= |s| && |r.value.0| == n && r.value.1 == s[n..]
  {
    if n <= |s| && forall i :: 0 <= i < n ==> s[i].Char? then
      Ok((seq(n, i requires 0 <= i < n => s[i].c), s[n..]))
    else Fail(ReadFailed)
  }

  /** The header, read as one block. */
  function ReadHeader(s: seq<Cell>): Result<(Header, seq<Cell>)>
  {
    match ReadBlock(s, 7)
    case Fail(e) => Fail(e)
    case Ok((a, rest)) => Ok((Header(a[0], a[1], a[2], a[3], a[4], a[5], a[6]), rest))
  }

  /**
   * The bound check on a loaded offset as written at generator.cpp:166 and
   * :176: `limit < v + extent` in size_t arithmetic, which wraps at 2^64.
   */
  predicate RejectedAsWritten(v: nat, extent: nat, limit: nat)
  {
    limit < (v + extent) % SIZE_MOD
  }

  /** The same check without the wrap: the offset and its extent must end inside the buffer. */
  predicate OffsetInRange(v: nat, extent: nat, limit: nat)
  {
    v + extent <= limit
  }

  /** Which range check a load applies to the offsets it reads. */
  datatype Check =
    | AsWritten  // the source's check, in size_t arithmetic
    | Intended   // the same comparison without wrap-around

  /** Whether the check keeps offset v, whose key spans `extent` elements of a buffer of `limit`. */
  predicate Admits(check: Check, v: nat, extent: nat, limit: nat)
  {
    match check
    case AsWritten => !RejectedAsWritten(v, extent, limit)
    case Intended => OffsetInRange(v, extent, limit)
  }

  /** An offset whose key ends inside the buffer passes either check. */
  lemma InRangeAdmitted(check: Check, v: nat, extent: nat, limit: nat)
    requires limit < SIZE_MOD && OffsetInRange(v, extent, limit)
    ensures Admits(check, v, extent, limit)
  {
    assert (v + extent) % SIZE_MOD == v + extent;
  }

  /**
   * What passing a check tells about a size_t offset: its key ends inside the
   * buffer, or, for the check as written only, `v + extent` wrapped around.
   */
  lemma AdmittedBound(check: Check, v: nat, extent: nat, limit: nat)
    requires v < SIZE_MOD && extent < SIZE_MOD && Admits(check, v, extent, limit)
    ensures v + extent <= limit || (check == AsWritten && SIZE_MOD <= v + extent)
  {
    if check == AsWritten && v + extent < SIZE_MOD {
      assert (v + extent) % SIZE_MOD == v + extent;
    }
  }

  /**
   * n offsets read one at a time, each checked against the buffer as it is
   * read (generator.cpp:163-169 with extent 1, :173-179 with extent
   * pref_size) and inserted into `idx` through std::inserter, which drops an
   * offset whose key is already present.
   */
  function ReadIndex(s: seq<Cell>, n: nat, k: Keying, limit: u64, extent: u64, why: Failure, idx: seq<nat>,
                     check: Check)
    : (r: Result<(seq<nat>, seq<Cell>)>)
    ensures r.Fail? ==> r.error == ReadFailed || r.error == why
    decreases n
  {
    if n == 0 then Ok((idx, s))
    else
      match ReadSize(s)
      case Fail(e) => Fail(e)
      case Ok((v, rest)) =>
        if !Admits(check, v, extent, limit) then Fail(why)
        else ReadIndex(rest, n - 1, k, limit, extent, why, Insert(idx, k, v), check)
  }

  /** Every offset of the index read was there before, or is a size_t that passed the range check. */
  lemma {:induction false} ReadIndexChecked(s: seq<Cell>, n: nat, k: Keying, limit: u64, extent: u64, why: Failure,
                                            idx: seq<nat>, check: Check)
    ensures var r := ReadIndex(s, n, k, limit, extent, why, idx, check);
      r.Ok? ==> forall o :: o in r.value.0 ==> o in idx || (o < SIZE_MOD && Admits(check, o, extent, limit))
    decreases n
  {
    if n > 0 && ReadSize(s).Ok? {
      var (v, rest) := ReadSize(s).value;
      if Admits(check, v, extent, limit) {
        InsertAdds(idx, k, v);
        ReadIndexChecked(rest, n - 1, k, limit, extent, why, Insert(idx, k, v), check);
      }
    }
  }

  /** Reading into an ordered index leaves it ordered, as std::set keeps it. */
  lemma {:induction false} ReadIndexAscending(s: seq<Cell>, n: nat, k: Keying, limit: u64, extent: u64, why: Failure,
                                              idx: seq<nat>, check: Check)
    requires Ascending(idx, k)
    ensures var r := ReadIndex(s, n, k, limit, extent, why, idx, check);
      r.Ok? ==> Ascending(r.value.0, k)
    decreases n
  {
    if n > 0 && ReadSize(s).Ok? {
      var (v, rest) := ReadSize(s).value;
      if Admits(check, v, extent, limit) {
        InsertKeepsOrder(idx, k, v);
        ReadIndexAscending(rest, n - 1, k, limit, extent, why, Insert(idx, k, v), check);
      }
    }
  }

  /** The bounds a checked index gives, for every offset in it. */
  lemma AdmittedBounds(check: Check, idx: seq<nat>, extent: nat, limit: nat)
    requires extent < SIZE_MOD
    requires forall o :: o in idx ==> o < SIZE_MOD && Admits(check, o, extent, limit)
    ensures forall o :: o in idx ==> o + extent <= limit || (check == AsWritten && SIZE_MOD <= o + extent)
  {
    forall o | o in idx
      ensures o + extent <= limit || (check == AsWritten && SIZE_MOD <= o + extent)
    {
      AdmittedBound(check, o, extent, limit);
    }
  }

  /**
   * n entries of one row (generator.cpp:184-188): each block is
   * (word, count, successor); the key is the running sum of the counts in
   * size_t arithmetic, and a key already present is dropped by std::inserter.
   */
  function ReadEntries(s: seq<Cell>, n: nat, sum: u64, row: Row): Result<(Row, seq<Cell>)>
    decreases n
  {
    if n == 0 then Ok((row, s))
    else
      match ReadBlock(s, 3)
      case Fail(e) => Fail(e)
      case Ok((a, rest)) =>
        var sum' := (sum + a[1]) % SIZE_MOD;
        ReadEntries(rest, n - 1, sum', if sum' in row then row else row[sum' := (a[0], a[2])])
  }

  /** One row (generator.cpp:181-189): its prefix id, its size, then its entries. */
  function ReadRow(s: seq<Cell>): Result<(nat, Row, seq<Cell>)>
  {
    match ReadBlock(s, 2)
    case Fail(e) => Fail(e)
    case Ok((a, rest)) =>
      match ReadEntries(rest, a[1], 0, map[])
      case Fail(e) => Fail(e)
      case Ok((row, rest')) => Ok((a[0], row, rest'))
  }

  /** n rows (generator.cpp:180-190); a prefix id already present keeps its row. */
  function ReadRows(s: seq<Cell>, n: nat, t: map<nat, Row>): Result<(map<nat, Row>, seq<Cell>)>
    decreases n
  {
    if n == 0 then Ok((t, s))
    else
      match ReadRow(s)
      case Fail(e) => Fail(e)
      case Ok((p, row, rest)) => ReadRows(rest, n - 1, if p in t then t else t[p := row])
  }

  /**
   * Reading n entries fails only as a read failure; otherwise it consumes
   * exactly 3n words and keeps every key read before with its entry, since
   * std::inserter never overwrites.
   */
  lemma {:induction false} ReadEntriesKeeps(s: seq<Cell>, n: nat, sum: u64, row: Row)
    ensures var r := ReadEntries(s, n, sum, row);
      && (r.Fail? ==> r.error == ReadFailed)
      && (r.Ok? ==> 3 * n <= |s| && r.value.1 == s[3 * n..])
      && (r.Ok? ==> forall k :: k in row ==> k in r.value.0 && r.value.0[k] == row[k])
    decreases n
  {
    if n > 0 && ReadBlock(s, 3).Ok? {
      var (a, rest) := ReadBlock(s, 3).value;
      var sum' := (sum + a[1]) % SIZE_MOD;
      var row' := if sum' in row then row else row[sum' := (a[0], a[2])];
      ReadEntriesKeeps(rest, n - 1, sum', row');
      if ReadEntries(rest, n - 1, sum', row').Ok? {
        assert rest[3 * (n - 1)..] == s[3 * n..];
      }
    }
  }

  /**
   * Reading a row fails only as a read failure; otherwise its prefix id is
   * the first word and its entry count the second, and it consumes exactly
   * the 2 + 3 * count words of the row.
   */
  lemma ReadRowShape(s: seq<Cell>)
    ensures var r := ReadRow(s);
      && (r.Fail? ==> r.error == ReadFailed)
      && (r.Ok? ==> 2 <= |s| && s[0].Size? && s[1].Size? && r.value.0 == s[0].v
                    && 2 + 3 * s[1].v <= |s| && r.value.2 == s[2 + 3 * s[1].v..])
  {
    if ReadBlock(s, 2).Ok? {
      var (a, rest) := ReadBlock(s, 2).value;
      ReadEntriesKeeps(rest, a[1], 0, map[]);
      if ReadEntries(rest, a[1], 0, map[]).Ok? {
        assert rest[3 * a[1]..] == s[2 + 3 * a[1]..];
      }
    }
  }

  /**
   * Reading n rows fails only as a read failure; otherwise it leaves a tail
   * of the stream and keeps every row read before, since a prefix id already
   * present keeps its row.
   */
  lemma {:induction false} ReadRowsKeeps(s: seq<Cell>, n: nat, t: map<nat, Row>)
    ensures var r := ReadRows(s, n, t);
      && (r.Fail? ==> r.error == ReadFailed)
      && (r.Ok? ==> |r.value.1| <= |s| && r.value.1 == s[|s| - |r.value.1|..])
      && (r.Ok? ==> forall p :: p in t ==> p in r.value.0 && r.value.0[p] == t[p])
    decreases n
  {
    if n > 0 {
      ReadRowShape(s);
      if ReadRow(s).Ok? {
        var (p, row, rest) := ReadRow(s).value;
        var t' := if p in t then t else t[p := row];
        ReadRowsKeeps(rest, n - 1, t');
        var r := ReadRows(rest, n - 1, t');
        if r.Ok? {
          var tail := r.value.1;
          assert rest[|rest| - |tail|..] == s[|s| - |tail|..];
        }
      }
    }
  }

  /**
   * `generating::model::load` as a function of the stream: the snapshot the
   * model holds afterwards, or why it stopped. `table0` is the table before
   * the call; the rows read are added to it. `check` selects the range check
   * applied to loaded offsets: the source's (`AsWritten`) or the intended one.
   * Both indexes come out ordered; every word offset lies inside the word
   * buffer and every window inside the window buffer, except that the check
   * as written also lets through offsets whose end wraps past 2^64.
   */
  function Decode(s: seq<Cell>, hash: u64 -> Word64, table0: map<nat, Row>, check: Check): (r: Result<Snapshot>)
    ensures r.Ok? ==> Ordered(r.value)
    ensures r.Ok? ==> forall o :: o in r.value.wordIndex ==>
      o < |r.value.wordData| || (check == AsWritten && o == NPOS)
    ensures r.Ok? ==> forall o :: o in r.value.prefIndex ==>
      o + r.value.prefWidth <= |r.value.prefData| || (check == AsWritten && SIZE_MOD <= o + r.value.prefWidth)
  {
    match ReadHeader(s)
    case Fail(e) => Fail(e)
    case Ok((h, s1)) =>
      if HeaderHash(h, hash) != AsWord(h.checksum) then Fail(BadChecksum)
      else DecodeWords(h, s1, table0, check)
  }

  /** After the header: the word buffer and the word index, then the rest. */
  function DecodeWords(h: Header, s1: seq<Cell>, table0: map<nat, Row>, check: Check): (r: Result<Snapshot>)
    ensures r.Ok? ==> Ordered(r.value)
    ensures r.Ok? ==> forall o :: o in r.value.wordIndex ==>
      o < |r.value.wordData| || (check == AsWritten && o == NPOS)
    ensures r.Ok? ==> forall o :: o in r.value.prefIndex ==>
      o + r.value.prefWidth <= |r.value.prefData| || (check == AsWritten && SIZE_MOD <= o + r.value.prefWidth)
  {
    match ReadChars(s1, h.wordDataSize)
    case Fail(e) => Fail(e)
    case Ok((data, s2)) =>
      var words := ReadIndex(s2, h.wordIndexSize, Words(data), h.wordDataSize, 1, WordOffsetOutOfRange, [], check);
      if words.Fail? then Fail(words.error)
      else
        ReadIndexChecked(s2, h.wordIndexSize, Words(data), h.wordDataSize, 1, WordOffsetOutOfRange, [], check);
        ReadIndexAscending(s2, h.wordIndexSize, Words(data), h.wordDataSize, 1, WordOffsetOutOfRange, [], check);
        AdmittedBounds(check, words.value.0, 1, h.wordDataSize);
        assert |data| == h.wordDataSize;
        DecodePrefixes(h, data, words.value.0, words.value.1, table0, check)
  }

  /** After the words: the prefix buffer and the prefix index, then the rows. */
  function DecodePrefixes(h: Header, data: seq<byte>, wordIndex: seq<nat>, s3: seq<Cell>, table0: map<nat, Row>,
                          check: Check)
    : (r: Result<Snapshot>)
    ensures r.Ok? ==> r.value.wordData == data && r.value.wordIndex == wordIndex
    ensures r.Ok? ==> Ascending(r.value.prefIndex, Windows(r.value.prefData, r.value.prefWidth))
    ensures r.Ok? ==> forall o :: o in r.value.prefIndex ==>
      o + r.value.prefWidth <= |r.value.prefData| || (check == AsWritten && SIZE_MOD <= o + r.value.prefWidth)
  {
    match ReadBlock(s3, h.prefDataSize)
    case Fail(e) => Fail(e)
    case Ok((prefData, s4)) =>
      var prefixes := ReadIndex(s4, h.prefIndexSize, Windows(prefData, h.prefSize), h.prefDataSize,
                                h.prefSize, PrefixOffsetOutOfRange, [], check);
      if prefixes.Fail? then Fail(prefixes.error)
      else
        ReadIndexChecked(s4, h.prefIndexSize, Windows(prefData, h.prefSize), h.prefDataSize,
                         h.prefSize, PrefixOffsetOutOfRange, [], check);
        ReadIndexAscending(s4, h.prefIndexSize, Windows(prefData, h.prefSize), h.prefDataSize,
                           h.prefSize, PrefixOffsetOutOfRange, [], check);
        AdmittedBounds(check, prefixes.value.0, h.prefSize, h.prefDataSize);
        match ReadRows(prefixes.value.1, h.tableSize, table0)
        case Fail(e) => Fail(e)
        case Ok((table, _)) => Ok(Snapshot(h.prefSize, data, wordIndex, prefData, prefixes.value.0, table))
  }

  // ---------------------------------------------------------------------
  // Running sums: the generating shape of a row
  // ---------------------------------------------------------------------

  /** The sum of the counts of ks in a training row. */
  function Total(row: Row, ks: seq<nat>): nat
    requires forall k :: k in ks ==> k in row
    decreases |ks|
  {
    if ks == [] then 0 else row[ks[0]].0 + Total(row, ks[1..])
  }

  /**
   * The row `load` builds from entries saved for ks (generator.cpp:184-188):
   * the i-th entry is keyed by `sum` plus the counts of the first i+1 entries;
   * when two entries reach the same key, the earlier one stays.
   */
  function CumulateFrom(row: Row, ks: seq<nat>, sum: nat): Row
    requires forall k :: k in ks ==> k in row
    decreases |ks|
  {
    if ks == [] then map[]
    else
      var s' := sum + row[ks[0]].0;
      CumulateFrom(row, ks[1..], s')[s' := (ks[0], row[ks[0]].1)]
  }

  /** A training row in generating shape: running sums over ascending word ids, from 0. */
  function Cumulate(row: Row): Row
  {
    CumulateFrom(row, InOrder(row.Keys), 0)
  }

  /**
   * A row in generating shape is empty exactly when the training row is, and
   * each of its entries holds a word of the training row with that word's
   * successor.
   */
  lemma CumulateKeepsEntries(row: Row)
    ensures row != map[] <==> Cumulate(row) != map[]
    ensures var c := Cumulate(row);
      forall x :: x in c ==> c[x].0 in row && c[x].1 == row[c[x].0].1
  {
    var ks := InOrder(row.Keys);
    CumulateEntries(row, ks, 0);
    if row != map[] {
      var w :| w in row;
      assert w in ks;
    }
  }

  /** Each entry of a running-sum row holds a word of the row with that word's successor. */
  lemma {:induction false} CumulateEntries(row: Row, ks: seq<nat>, sum: nat)
    requires forall k :: k in ks ==> k in row
    ensures ks != [] <==> CumulateFrom(row, ks, sum) != map[]
    ensures var c := CumulateFrom(row, ks, sum);
      forall x :: x in c ==> c[x].0 in ks && c[x].1 == row[c[x].0].1
    decreases |ks|
  {
    if ks != [] {
      var s' := sum + row[ks[0]].0;
      CumulateEntries(row, ks[1..], s');
      assert s' in CumulateFrom(row, ks, sum);
    }
  }

  /** Every row of a table in generating shape: the same prefixes, each entry naming a word of its row. */
  function Cumulated(t: map<nat, Row>): (r: map<nat, Row>)
    ensures forall p :: p in r <==> p in t
    ensures forall p :: p in t ==> (r[p] == map[] <==> t[p] == map[])
    ensures forall p, x :: p in r && x in r[p] ==> r[p][x].0 in t[p] && r[p][x].1 == t[p][r[p][x].0].1
  {
    var r := map p | p in t :: Cumulate(t[p]);
    assert forall p :: p in t ==> (r[p] == map[] <==> t[p] == map[])
                                  && forall x :: x in r[p] ==> r[p][x].0 in t[p] && r[p][x].1 == t[p][r[p][x].0].1 by {
      forall p | p in t {
        CumulateKeepsEntries(t[p]);
      }
    }
    r
  }

  lemma {:induction false} TotalSnoc(row: Row, ks: seq<nat>, j: nat)
    requires forall k :: k in ks ==> k in row
    requires j < |ks|
    ensures Total(row, ks[..j + 1]) == Total(row, ks[..j]) + row[ks[j]].0
    decreases j
  {
    if j > 0 {
      assert ks[..j + 1][1..] == ks[1..][..j];
      assert ks[..j][1..] == ks[1..][..j - 1];
      TotalSnoc(row, ks[1..], j - 1);
    }
  }

  lemma {:induction false} TotalGrows(row: Row, ks: seq<nat>, i: nat, j: nat)
    requires forall k :: k in ks ==> k in row
    requires i <= j <= |ks|
    ensures Total(row, ks[..i]) <= Total(row, ks[..j])
    decreases j - i
  {
    if i < j {
      TotalSnoc(row, ks, j - 1);
      TotalGrows(row, ks, i, j - 1);
    }
  }

  lemma {:induction false} TotalGrowsStrictly(row: Row, ks: seq<nat>, i: nat, j: nat)
    requires forall k :: k in ks ==> k in row && row[k].0 >= 1
    requires i < j <= |ks|
    ensures Total(row, ks[..i]) < Total(row, ks[..j])
  {
    TotalSnoc(row, ks, j - 1);
    TotalGrows(row, ks, i, j - 1);
  }

  /** The key of the j-th entry in a running-sum row: `sum` plus the first j+1 counts. */
  function Threshold(row: Row, ks: seq<nat>, sum: nat, j: nat): nat
    requires forall k :: k in ks ==> k in row
    requires j < |ks|
  {
    sum + Total(row, ks[..j + 1])
  }

  lemma ThresholdFirst(row: Row, ks: seq<nat>, sum: nat)
    requires forall k :: k in ks ==> k in row
    requires ks != []
    ensures Threshold(row, ks, sum, 0) == sum + row[ks[0]].0
  {
    assert ks[..1][1..] == [];
    assert Total(row, ks[..1]) == row[ks[..1][0]].0 + Total(row, ks[..1][1..]);
  }

  lemma ThresholdShift(row: Row, ks: seq<nat>, sum: nat, j: nat)
    requires forall k :: k in ks ==> k in row
    requires 0 < j < |ks|
    ensures Threshold(row, ks, sum, j) == Threshold(row, ks[1..], sum + row[ks[0]].0, j - 1)
  {
    assert ks[..j + 1][1..] == ks[1..][..j - 1 + 1];
  }

  lemma ThresholdAbove(row: Row, ks: seq<nat>, sum: nat, j: nat)
    requires forall k :: k in ks ==> k in row && row[k].0 >= 1
    requires j < |ks|
    ensures Threshold(row, ks, sum, j) > sum
  {
    TotalGrowsStrictly(row, ks, 0, j + 1);
    assert ks[..0] == [];
  }

  /**
   * With counts of at least one, the j-th entry of the running-sum row sits
   * at `sum` plus the first j+1 counts, with its word and successor.
   */
  lemma {:induction false} CumulateHasKeys(row: Row, ks: seq<nat>, sum: nat)
    requires forall k :: k in ks ==> k in row && row[k].0 >= 1
    ensures forall j :: 0 <= j < |ks| ==>
      Threshold(row, ks, sum, j) in CumulateFrom(row, ks, sum)
      && CumulateFrom(row, ks, sum)[Threshold(row, ks, sum, j)] == (ks[j], row[ks[j]].1)
    decreases |ks|
  {
    if ks != [] {
      var s', rest := sum + row[ks[0]].0, ks[1..];
      var c := CumulateFrom(row, ks, sum);
      CumulateHasKeys(row, rest, s');
      forall j | 0 <= j < |ks|
        ensures Threshold(row, ks, sum, j) in c && c[Threshold(row, ks, sum, j)] == (ks[j], row[ks[j]].1)
      {
        if j == 0 {
          ThresholdFirst(row, ks, sum);
        } else {
          ThresholdShift(row, ks, sum, j);
          ThresholdAbove(row, rest, s', j - 1);
        }
      }
    }
  }

  /** A running-sum row has no key besides the entries' thresholds. */
  lemma {:induction false} CumulateOnlyKeys(row: Row, ks: seq<nat>, sum: nat)
    requires forall k :: k in ks ==> k in row
    ensures forall x :: x in CumulateFrom(row, ks, sum) ==>
      exists j :: 0 <= j < |ks| && x == Threshold(row, ks, sum, j)
    decreases |ks|
  {
    if ks != [] {
      var s', rest := sum + row[ks[0]].0, ks[1..];
      CumulateOnlyKeys(row, rest, s');
      forall x | x in CumulateFrom(row, ks, sum) ensures exists j :: 0 <= j < |ks| && x == Threshold(row, ks, sum, j) {
        if x == s' {
          ThresholdFirst(row, ks, sum);
        } else {
          assert x in CumulateFrom(row, rest, s');
          var j :| 0 <= j < |rest| && x == Threshold(row, rest, s', j);
          ThresholdShift(row, ks, sum, j + 1);
        }
      }
    }
  }

  /**
   * Weighted choice (generator.cpp:142-147): on a row in running-sum shape,
   * a draw r above the first j counts and within the first j+1 selects the
   * j-th entry, so each word is selected by exactly as many draws in
   * [1, total] as its count.
   */
  lemma CumulateSelects(row: Row, ks: seq<nat>, sum: nat, j: nat, r: nat)
    requires forall k :: k in ks ==> k in row && row[k].0 >= 1
    requires j < |ks|
    requires sum + Total(row, ks[..j]) < r <= Threshold(row, ks, sum, j)
    ensures exists k :: k in CumulateFrom(row, ks, sum) && r <= k
    ensures var c := CumulateFrom(row, ks, sum);
      var key := LeastAtLeast(c.Keys, r);
      key == Threshold(row, ks, sum, j) && c[key] == (ks[j], row[ks[j]].1)
  {
    var c := CumulateFrom(row, ks, sum);
    CumulateHasKeys(row, ks, sum);
    CumulateOnlyKeys(row, ks, sum);
    assert Threshold(row, ks, sum, j) in c;
    var least := LeastAtLeast(c.Keys, r);
    var i :| 0 <= i < |ks| && least == Threshold(row, ks, sum, i);
    ThresholdsIncrease(row, ks, sum);
    assert i == j;
  }

  /** Later entries of a running-sum row sit at larger keys. */
  lemma ThresholdsIncrease(row: Row, ks: seq<nat>, sum: nat)
    requires forall k :: k in ks ==> k in row && row[k].0 >= 1
    ensures forall i, j :: 0 <= i < j < |ks| ==>
      Threshold(row, ks, sum, i) <= sum + Total(row, ks[..j]) < Threshold(row, ks, sum, j)
  {
    forall i, j | 0 <= i < j < |ks|
      ensures Threshold(row, ks, sum, i) <= sum + Total(row, ks[..j]) < Threshold(row, ks, sum, j)
    {
      TotalGrows(row, ks, i + 1, j);
      TotalGrowsStrictly(row, ks, j, j + 1);
    }
  }

  /** The total of a row is its largest key, so every draw up to the total meets some key. */
  lemma CumulateCovers(row: Row, ks: seq<nat>, sum: nat, r: nat)
    requires forall k :: k in ks ==> k in row && row[k].0 >= 1
    requires ks != [] && r <= sum + Total(row, ks)
    ensures exists k :: k in CumulateFrom(row, ks, sum) && r <= k
  {
    CumulateHasKeys(row, ks, sum);
    assert ks[..|ks| - 1 + 1] == ks;
    assert Threshold(row, ks, sum, |ks| - 1) in CumulateFrom(row, ks, sum);
  }

  // ---------------------------------------------------------------------
  // Reading back what was written
  // ---------------------------------------------------------------------

  lemma SizeCellsSplit(xs: seq<nat>, j: nat)
    requires AllFit(xs) && j < |xs|
    ensures SizeCells(xs[j..]) == [Size(xs[j])] + SizeCells(xs[j + 1..])
  {
  }

  lemma ReadBlockCells(xs: seq<nat>, rest: seq<Cell>)
    requires AllFit(xs)
    ensures ReadBlock(SizeCells(xs) + rest, |xs|) == Ok((xs, rest))
  {
    var s := SizeCells(xs) + rest;
    assert s[|xs|..] == rest;
    assert forall i :: 0 <= i < |xs| ==> s[i] == Size(xs[i]);
    var r := ReadBlock(s, |xs|);
    assert r.value.0 == xs;
  }

  lemma ReadCharsCells(bs: seq<byte>, rest: seq<Cell>)
    ensures ReadChars(CharCells(bs) + rest, |bs|) == Ok((bs, rest))
  {
    var s := CharCells(bs) + rest;
    assert s[|bs|..] == rest;
    assert forall i :: 0 <= i < |bs| ==> s[i] == Char(bs[i]);
    var r := ReadChars(s, |bs|);
    assert r.value.0 == bs;
  }

  lemma ReadHeaderCells(h: Header, rest: seq<Cell>)
    ensures ReadHeader(HeaderCells(h) + rest) == Ok((h, rest))
  {
    var xs: seq<nat> := [h.prefSize, h.wordDataSize, h.wordIndexSize, h.prefDataSize,
                         h.prefIndexSize, h.tableSize, h.checksum];
    assert SizeCells(xs) == HeaderCells(h);
    ReadBlockCells(xs, rest);
  }

  lemma ReadSizeCells(vs: seq<nat>, rest: seq<Cell>)
    requires AllFit(vs) && vs != []
    ensures AllFit(vs[1..])
    ensures ReadSize(SizeCells(vs) + rest) == Ok((vs[0], SizeCells(vs[1..]) + rest))
  {
    assert vs[0..] == vs;
    SizeCellsSplit(vs, 0);
    assert SizeCells(vs) + rest == [Size(vs[0])] + (SizeCells(vs[1..]) + rest);
  }

  /** One offset of an index read: it passed the check and went into the set. */
  lemma ReadIndexStep(s: seq<Cell>, n: nat, k: Keying, limit: u64, extent: u64, why: Failure, idx: seq<nat>,
                      v: u64, rest: seq<Cell>, check: Check)
    requires n > 0 && ReadSize(s) == Ok((v, rest)) && Admits(check, v, extent, limit)
    ensures ReadIndex(s, n, k, limit, extent, why, idx, check)
         == ReadIndex(rest, n - 1, k, limit, extent, why, Insert(idx, k, v), check)
  {
  }

  /**
   * Offsets that pass the check and sort above everything in `pre` read back
   * as themselves, appended to `pre`.
   */
  lemma {:induction false} ReadIndexAppends(pre: seq<nat>, vs: seq<nat>, k: Keying, limit: u64, extent: u64,
                                            why: Failure, rest: seq<Cell>, check: Check)
    requires Ascending(pre + vs, k) && AllFit(vs)
    requires forall i :: 0 <= i < |vs| ==> OffsetInRange(vs[i], extent, limit)
    ensures Ascending(pre, k)
    ensures ReadIndex(SizeCells(vs) + rest, |vs|, k, limit, extent, why, pre, check) == Ok((pre + vs, rest))
    decreases |vs|
  {
    if vs == [] {
      assert pre + vs == pre;
      assert SizeCells(vs) + rest == rest;
    } else {
      var v := vs[0];
      AscendingNext(pre, vs, k);
      InsertAbove(pre, k, v);
      ReadSizeCells(vs, rest);
      InRangeAdmitted(check, v, extent, limit);
      ReadIndexStep(SizeCells(vs) + rest, |vs|, k, limit, extent, why, pre, v, SizeCells(vs[1..]) + rest, check);
      ReadIndexAppends(pre + [v], vs[1..], k, limit, extent, why, rest, check);
    }
  }

  /** An ascending index whose offsets pass the check reads back as itself. */
  lemma ReadIndexCells(vs: seq<nat>, k: Keying, limit: u64, extent: u64, why: Failure, rest: seq<Cell>, check: Check)
    requires Ascending(vs, k) && AllFit(vs)
    requires forall i :: 0 <= i < |vs| ==> OffsetInRange(vs[i], extent, limit)
    ensures ReadIndex(SizeCells(vs) + rest, |vs|, k, limit, extent, why, [], check) == Ok((vs, rest))
  {
    assert [] + vs == vs;
    ReadIndexAppends([], vs, k, limit, extent, why, rest, check);
  }

  /** One entry block: the running sum grows by its count, and a new key takes the entry. */
  lemma ReadEntriesStep(w: u64, c: u64, succ: u64, tail: seq<Cell>, n: nat, sum: nat, acc: Row)
    requires sum + c < SIZE_MOD
    ensures ReadEntries(SizeCells([w, c, succ]) + tail, n + 1, sum, acc)
         == ReadEntries(tail, n, sum + c, if sum + c in acc then acc else acc[sum + c := (w, succ)])
  {
    var a: seq<nat> := [w, c, succ];
    ReadBlockCells(a, tail);
    assert ReadBlock(SizeCells(a) + tail, 3) == Ok((a, tail));
    assert (sum + a[1]) % SIZE_MOD == sum + c;
  }

  lemma EntryCellsSplit(row: Row, ks: seq<nat>, rest: seq<Cell>)
    requires RowFits(row) && (forall k :: k in ks ==> k in row) && ks != []
    ensures ks[0] in row
    ensures EntryCells(row, ks) + rest
         == SizeCells([ks[0], row[ks[0]].0, row[ks[0]].1]) + (EntryCells(row, ks[1..]) + rest)
  {
    var w := ks[0];
    assert w in ks;
    var head: seq<Cell> := [Size(w), Size(row[w].0), Size(row[w].1)];
    assert SizeCells([w, row[w].0, row[w].1]) == head;
    assert EntryCells(row, ks) == head + EntryCells(row, ks[1..]);
    Regroup(head, EntryCells(row, ks[1..]), rest);
  }

  /** Entries read later never displace an earlier key (std::inserter keeps the first). */
  lemma MergeUnder(c: Row, acc: Row, key: nat, e: (nat, nat))
    ensures c + (if key in acc then acc else acc[key := e]) == c[key := e] + acc
  {
  }

  /** The running sums of a row's saved entries, merged under the entries read before. */
  lemma {:induction false} ReadEntriesCells(row: Row, ks: seq<nat>, sum: nat, acc: Row, rest: seq<Cell>)
    requires RowFits(row) && forall k :: k in ks ==> k in row
    requires sum + Total(row, ks) < SIZE_MOD
    ensures ReadEntries(EntryCells(row, ks) + rest, |ks|, sum, acc) == Ok((CumulateFrom(row, ks, sum) + acc, rest))
    decreases |ks|
  {
    if ks == [] {
      assert EntryCells(row, ks) + rest == rest;
      MergeOntoEmpty(acc);
    } else {
      var w := ks[0];
      var s', e := sum + row[w].0, (w, row[w].1);
      assert Total(row, ks) == row[w].0 + Total(row, ks[1..]);
      ReadEntriesCells(row, ks[1..], s', if s' in acc then acc else acc[s' := e], rest);
      ReadEntriesCellsStep(row, ks, sum, acc, rest);
    }
  }

  /** The first entry's cells, then the rest as the smaller case says. */
  lemma ReadEntriesCellsStep(row: Row, ks: seq<nat>, sum: nat, acc: Row, rest: seq<Cell>)
    requires RowFits(row) && ks != [] && forall k :: k in ks ==> k in row
    requires sum + Total(row, ks) < SIZE_MOD
    requires var s' := sum + row[ks[0]].0;
      var acc' := if s' in acc then acc else acc[s' := (ks[0], row[ks[0]].1)];
      ReadEntries(EntryCells(row, ks[1..]) + rest, |ks[1..]|, s', acc')
        == Ok((CumulateFrom(row, ks[1..], s') + acc', rest))
    ensures ReadEntries(EntryCells(row, ks) + rest, |ks|, sum, acc) == Ok((CumulateFrom(row, ks, sum) + acc, rest))
  {
    var w := ks[0];
    EntryCellsSplit(row, ks, rest);
    var s', e := sum + row[w].0, (w, row[w].1);
    assert Total(row, ks) == row[w].0 + Total(row, ks[1..]);
    var tail := EntryCells(row, ks[1..]) + rest;
    ReadEntriesStep(w, row[w].0, row[w].1, tail, |ks[1..]|, sum, acc);
    assert CumulateFrom(row, ks, sum) == CumulateFrom(row, ks[1..], s')[s' := e];
    MergeUnder(CumulateFrom(row, ks[1..], s'), acc, s', e);
  }

  lemma RowCellsSplit(p: u64, row: Row, tail: seq<Cell>)
    requires RowFits(row)
    ensures RowCells(p, row) + tail == SizeCells([p, |row|]) + (EntryCells(row, InOrder(row.Keys)) + tail)
  {
    var head: seq<Cell> := [Size(p), Size(|row|)];
    assert SizeCells([p, |row|]) == head;
    Regroup(head, EntryCells(row, InOrder(row.Keys)), tail);
  }

  lemma MergeOntoEmpty(m: Row)
    ensures map[] + m == m
  {
  }

  lemma MergeEmpty(m: Row)
    ensures m + map[] == m
  {
  }

  /**
   * A row `load` can read back: every number is a size_t and so is the
   * running sum of its counts, which `load` accumulates in a size_t.
   */
  ghost predicate Savable(row: Row)
  {
    RowFits(row) && Total(row, InOrder(row.Keys)) < SIZE_MOD
  }

  /** The rows of `order` can be saved and read back, and no two are the same prefix id. */
  ghost predicate RowsSavable(t: map<nat, Row>, order: seq<nat>)
  {
    && (forall i :: 0 <= i < |order| ==> order[i] in t && order[i] < SIZE_MOD && Savable(t[order[i]]))
    && (forall i, i' :: 0 <= i < i' < |order| ==> order[i] != order[i'])
  }

  /** A row saved with its entries in the order ks reads back with running sums over ks. */
  lemma ReadRowCellsOf(p: u64, row: Row, ks: seq<nat>, tail: seq<Cell>)
    requires RowFits(row) && |ks| == |row| && (forall k :: k in ks ==> k in row) && Total(row, ks) < SIZE_MOD
    ensures ReadRow(SizeCells([p, |row|]) + (EntryCells(row, ks) + tail)) == Ok((p, CumulateFrom(row, ks, 0), tail))
  {
    var mid := EntryCells(row, ks) + tail;
    ReadBlockCells([p, |row|], mid);
    ReadEntriesCells(row, ks, 0, map[], tail);
    MergeEmpty(CumulateFrom(row, ks, 0));
  }

  /** A whole saved row reads back in running-sum shape. */
  lemma ReadRowCells(p: u64, row: Row, tail: seq<Cell>)
    requires Savable(row)
    ensures ReadRow(RowCells(p, row) + tail) == Ok((p, Cumulate(row), tail))
  {
    RowCellsSplit(p, row, tail);
    ReadRowCellsOf(p, row, InOrder(row.Keys), tail);
  }

  /** The first saved row of a table reads back, and the rest of the rows follow. */
  lemma ReadRowsCons(t: map<nat, Row>, order: seq<nat>, pre: map<nat, Row>, rest: seq<Cell>)
    requires order != [] && Listed(t, order) && Savable(t[order[0]]) && order[0] !in pre
    ensures ReadRows(TableCells(t, order) + rest, |order|, pre)
         == ReadRows(TableCells(t, order[1..]) + rest, |order[1..]|, pre[order[0] := Cumulate(t[order[0]])])
  {
    var p := order[0];
    var tail := TableCells(t, order[1..]) + rest;
    var whole := TableCells(t, order) + rest;
    TableCellsCons(t, order);
    Regroup(RowCells(p, t[p]), TableCells(t, order[1..]), rest);
    var n := |order[1..]|;
    assert |order| == n + 1;
    ReadRowsStep(p, t[p], tail, n, pre);
    assert ReadRows(whole, |order|, pre) == ReadRows(RowCells(p, t[p]) + tail, n + 1, pre);
  }

  lemma TableCellsCons(t: map<nat, Row>, order: seq<nat>)
    requires order != [] && Listed(t, order)
    ensures TableCells(t, order) == RowCells(order[0], t[order[0]]) + TableCells(t, order[1..])
  {
  }

  /** One saved row in front of the rest: it is read, and a new prefix id takes it. */
  lemma ReadRowsStep(p: u64, row: Row, tail: seq<Cell>, n: nat, pre: map<nat, Row>)
    requires Savable(row) && p !in pre
    ensures ReadRows(RowCells(p, row) + tail, n + 1, pre) == ReadRows(tail, n, pre[p := Cumulate(row)])
  {
    ReadRowCells(p, row, tail);
  }

  /** What is left after the first row can be saved too, and is new after the first row is read. */
  lemma RowsSavableTail(t: map<nat, Row>, order: seq<nat>, pre: map<nat, Row>, pre': map<nat, Row>)
    requires order != [] && RowsSavable(t, order) && pre'.Keys == pre.Keys + {order[0]}
    requires forall i :: 0 <= i < |order| ==> order[i] !in pre
    ensures RowsSavable(t, order[1..])
    ensures forall i :: 0 <= i < |order[1..]| ==> order[1..][i] !in pre'
  {
    forall i | 0 <= i < |order[1..]|
      ensures order[1..][i] in t && order[1..][i] < SIZE_MOD && Savable(t[order[1..][i]]) && order[1..][i] !in pre'
    {
      assert order[1..][i] == order[i + 1];
    }
    forall i, i' | 0 <= i < i' < |order[1..]| ensures order[1..][i] != order[1..][i'] {
      assert order[1..][i] == order[i + 1] && order[1..][i'] == order[i' + 1];
    }
  }

  /**
   * What reading the rows saved in `order` after the rows in `pre` gives: the
   * earlier rows stay, and every prefix id of `order` gets its row in
   * generating shape.
   */
  ghost predicate RowsReadBack(r: Result<(map<nat, Row>, seq<Cell>)>, t: map<nat, Row>, order: seq<nat>,
                               pre: map<nat, Row>, rest: seq<Cell>)
  {
    && r.Ok? && r.value.1 == rest
    && (forall p :: p in r.value.0 <==> p in pre || p in order)
    && (forall p :: p in pre ==> r.value.0[p] == pre[p])
    && (forall i :: 0 <= i < |order| ==> order[i] in t && r.value.0[order[i]] == Cumulate(t[order[i]]))
  }

  /** Reading one more row in front keeps what the rows after it give. */
  lemma ReadBackCons(r: Result<(map<nat, Row>, seq<Cell>)>, t: map<nat, Row>, order: seq<nat>,
                     pre: map<nat, Row>, rest: seq<Cell>)
    requires order != [] && order[0] in t && order[0] !in pre
    requires RowsReadBack(r, t, order[1..], pre[order[0] := Cumulate(t[order[0]])], rest)
    ensures RowsReadBack(r, t, order, pre, rest)
  {
    var p := order[0];
    forall q ensures q in order <==> q == p || q in order[1..] {
      if q in order {
        var i :| 0 <= i < |order| && order[i] == q;
        if i > 0 { assert order[1..][i - 1] == q; }
      }
    }
    forall i | 0 <= i < |order| ensures order[i] in t && r.value.0[order[i]] == Cumulate(t[order[i]]) {
      if i > 0 { assert order[1..][i - 1] == order[i]; }
    }
  }

  /**
   * Rows saved in `order`, read after the rows in `pre`: the earlier rows stay,
   * and every prefix id of `order` gets its row in generating shape.
   */
  lemma {:induction false} ReadRowsCells(t: map<nat, Row>, order: seq<nat>, pre: map<nat, Row>, rest: seq<Cell>)
    requires RowsSavable(t, order)
    requires forall i :: 0 <= i < |order| ==> order[i] !in pre
    ensures RowsReadBack(ReadRows(TableCells(t, order) + rest, |order|, pre), t, order, pre, rest)
    decreases |order|
  {
    if order == [] {
      assert TableCells(t, order) + rest == rest;
    } else {
      var p := order[0];
      var pre' := pre[p := Cumulate(t[p])];
      ReadRowsCons(t, order, pre, rest);
      RowsSavableTail(t, order, pre, pre');
      ReadRowsCells(t, order[1..], pre', rest);
      ReadBackCons(ReadRows(TableCells(t, order[1..]) + rest, |order[1..]|, pre'), t, order, pre, rest);
    }
  }

  // ---------------------------------------------------------------------
  // The round trip: what `save` writes, `load` reads back
  // ---------------------------------------------------------------------

  /** A sequence that lists each element of a set exactly once is as long as the set is large. */
  lemma {:induction false} EnumerationLength(order: seq<nat>, keys: set<nat>)
    requires forall p :: p in order <==> p in keys
    requires forall i, j :: 0 <= i < j < |order| ==> order[i] != order[j]
    ensures |order| == |keys|
    decreases |order|
  {
    if order != [] {
      var keys' := keys - {order[0]};
      forall p ensures p in order[1..] <==> p in keys' {
        if p in order[1..] {
          var j :| 0 <= j < |order[1..]| && order[1..][j] == p;
          assert order[j + 1] == p;
        }
        if p in keys' {
          var j :| 0 <= j < |order| && order[j] == p;
          assert order[1..][j - 1] == p;
        }
      }
      forall i, j | 0 <= i < j < |order[1..]| ensures order[1..][i] != order[1..][j] {
        assert order[1..][i] == order[i + 1] && order[1..][j] == order[j + 1];
      }
      EnumerationLength(order[1..], keys');
    }
  }

  /** The table saved in an iteration order reads back, every row in generating shape. */
  lemma DecodeTable(t: map<nat, Row>, order: seq<nat>, rest: seq<Cell>)
    requires Enumerates(order, t)
    requires forall p :: p in t ==> p < SIZE_MOD && Savable(t[p])
    ensures Listed(t, order)
    ensures |order| == |t|
    ensures ReadRows(TableCells(t, order) + rest, |t|, map[]) == Ok((Cumulated(t), rest))
  {
    assert forall i :: 0 <= i < |order| ==> order[i] in order;
    EnumerationLength(order, t.Keys);
    ReadRowsCells(t, order, map[], rest);
    ReadBackAll(ReadRows(TableCells(t, order) + rest, |order|, map[]), t, order, rest);
  }

  lemma ReadBackValues(r: Result<(map<nat, Row>, seq<Cell>)>, t: map<nat, Row>, order: seq<nat>, rest: seq<Cell>)
    requires Enumerates(order, t) && RowsReadBack(r, t, order, map[], rest)
    ensures r.value.0.Keys == Cumulated(t).Keys
    ensures forall p :: p in r.value.0 ==> r.value.0[p] == Cumulated(t)[p]
  {
    var got := r.value.0;
    forall p | p in got ensures got[p] == Cumulated(t)[p] {
      var i :| 0 <= i < |order| && order[i] == p;
    }
  }

  /** Rows read back for every prefix id of the table, onto nothing, are the table in generating shape. */
  lemma ReadBackAll(r: Result<(map<nat, Row>, seq<Cell>)>, t: map<nat, Row>, order: seq<nat>, rest: seq<Cell>)
    requires Enumerates(order, t) && RowsReadBack(r, t, order, map[], rest)
    ensures r == Ok((Cumulated(t), rest))
  {
    ReadBackValues(r, t, order, rest);
    assert r.value.0 == Cumulated(t);
  }

  /** The cells `Encode` writes, split where `load` reads them. */
  lemma PayloadSplit(s: Snapshot, order: seq<nat>, rest: seq<Cell>,
                    s1: seq<Cell>, s2: seq<Cell>, s3: seq<Cell>, s4: seq<Cell>, s5: seq<Cell>)
    requires Fits(s) && Enumerates(order, s.table)
    requires Listed(s.table, order)
    requires s5 == TableCells(s.table, order) + rest
    requires s4 == SizeCells(s.prefIndex) + s5
    requires s3 == SizeCells(s.prefData) + s4
    requires s2 == SizeCells(s.wordIndex) + s3
    requires s1 == CharCells(s.wordData) + s2
    ensures Payload(s, order) + rest == s1
  {
    var b, c := CharCells(s.wordData), SizeCells(s.wordIndex);
    var d, e, f := SizeCells(s.prefData), SizeCells(s.prefIndex), TableCells(s.table, order);
    assert b + c + d + e + f + rest == b + (c + (d + (e + (f + rest))));
  }

  /** DecodePrefixes through its three stages. */
  lemma DecodePrefixesStages(h: Header, data: seq<byte>, wordIndex: seq<nat>, s3: seq<Cell>, s4: seq<Cell>,
                             s5: seq<Cell>, prefData: seq<nat>, prefIndex: seq<nat>, table: map<nat, Row>,
                             rest: seq<Cell>, check: Check)
    requires ReadBlock(s3, h.prefDataSize) == Ok((prefData, s4))
    requires ReadIndex(s4, h.prefIndexSize, Windows(prefData, h.prefSize), h.prefDataSize, h.prefSize,
                       PrefixOffsetOutOfRange, [], check) == Ok((prefIndex, s5))
    requires ReadRows(s5, h.tableSize, map[]) == Ok((table, rest))
    ensures DecodePrefixes(h, data, wordIndex, s3, map[], check)
         == Ok(Snapshot(h.prefSize, data, wordIndex, prefData, prefIndex, table))
  {
  }

  /** The prefix offsets `save` wrote read back as the prefix index. */
  lemma PrefixIndexEncoded(s: Snapshot, s5: seq<Cell>, check: Check)
    requires WellFormed(s) && Fits(s)
    ensures ReadIndex(SizeCells(s.prefIndex) + s5, |s.prefIndex|, Windows(s.prefData, s.prefWidth), |s.prefData|,
                      s.prefWidth, PrefixOffsetOutOfRange, [], check) == Ok((s.prefIndex, s5))
  {
    assert forall i :: 0 <= i < |s.prefIndex| ==> s.prefIndex[i] in s.prefIndex;
    ReadIndexCells(s.prefIndex, Windows(s.prefData, s.prefWidth), |s.prefData|, s.prefWidth,
                   PrefixOffsetOutOfRange, s5, check);
  }

  lemma DecodePrefixesEncoded(s: Snapshot, order: seq<nat>, h: Header, rest: seq<Cell>, check: Check)
    requires WellFormed(s) && Fits(s) && Enumerates(order, s.table)
    requires forall p :: p in s.table ==> Savable(s.table[p])
    requires Describes(h, s)
    ensures Listed(s.table, order)
    ensures DecodePrefixes(h, s.wordData, s.wordIndex,
                           SizeCells(s.prefData) + (SizeCells(s.prefIndex) + (TableCells(s.table, order) + rest)),
                           map[], check)
         == Ok(s.(table := Cumulated(s.table)))
  {
    DecodeTable(s.table, order, rest);
    var s5 := TableCells(s.table, order) + rest;
    var s4 := SizeCells(s.prefIndex) + s5;
    ReadBlockCells(s.prefData, s4);
    PrefixIndexEncoded(s, s5, check);
    DecodePrefixesStages(h, s.wordData, s.wordIndex, SizeCells(s.prefData) + s4, s4, s5, s.prefData,
                         s.prefIndex, Cumulated(s.table), rest, check);
  }

  lemma DecodeWordsEncoded(s: Snapshot, order: seq<nat>, h: Header, rest: seq<Cell>, check: Check)
    requires WellFormed(s) && Fits(s) && Enumerates(order, s.table)
    requires forall p :: p in s.table ==> Savable(s.table[p])
    requires Describes(h, s)
    ensures DecodeWords(h, Payload(s, order) + rest, map[], check) == Ok(s.(table := Cumulated(s.table)))
  {
    DecodePrefixesEncoded(s, order, h, rest, check);
    var s5 := TableCells(s.table, order) + rest;
    var s4 := SizeCells(s.prefIndex) + s5;
    var s3 := SizeCells(s.prefData) + s4;
    var s2 := SizeCells(s.wordIndex) + s3;
    var s1 := CharCells(s.wordData) + s2;
    PayloadSplit(s, order, rest, s1, s2, s3, s4, s5);
    ReadCharsCells(s.wordData, s2);
    assert forall i :: 0 <= i < |s.wordIndex| ==> s.wordIndex[i] in s.wordIndex;
    ReadIndexCells(s.wordIndex, Words(s.wordData), |s.wordData|, 1, WordOffsetOutOfRange, s3, check);
  }

  /**
   * The round trip of generator.cpp:104-131 and :151-191: loading what `save`
   * wrote for a well-formed model gives back its buffers and indexes unchanged,
   * and its table with every row turned into running sums. Trailing input is
   * left unread. The saved offsets pass the range check as written and the
   * intended one alike.
   */
  lemma DecodeEncode(s: Snapshot, order: seq<nat>, hash: u64 -> Word64, rest: seq<Cell>, check: Check)
    requires WellFormed(s) && Fits(s) && Enumerates(order, s.table)
    requires forall p :: p in s.table ==> Savable(s.table[p])
    ensures Decode(Encode(s, order, hash) + rest, hash, map[], check) == Ok(s.(table := Cumulated(s.table)))
  {
    var h := HeaderOf(s, hash);
    var s1 := Payload(s, order) + rest;
    assert Encode(s, order, hash) + rest == HeaderCells(h) + s1;
    ReadHeaderCells(h, s1);
    DecodeWordsEncoded(s, order, h, rest, check);
  }

  /**
   * Saved output whose header has one size field changed and the checksum
   * kept is refused as "invalid checksum" whenever the hash tells the old and
   * the new value apart (generator.cpp:156-159).
   */
  lemma ChangedHeaderRejected(s: Snapshot, order: seq<nat>, hash: u64 -> Word64, rest: seq<Cell>,
                              table0: map<nat, Row>, check: Check, h': Header, i: nat)
    requires Fits(s) && Enumerates(order, s.table)
    requires i < 6 && h'.checksum == HeaderOf(s, hash).checksum
    requires forall j :: 0 <= j < 6 && j != i ==> Fields(HeaderOf(s, hash))[j] == Fields(h')[j]
    requires hash(Fields(HeaderOf(s, hash))[i]) != hash(Fields(h')[i])
    ensures Decode(HeaderCells(h') + Payload(s, order) + rest, hash, table0, check) == Fail(BadChecksum)
  {
    var h := HeaderOf(s, hash);
    ChecksumDetectsChange(h, h', i, hash);
    var input := HeaderCells(h') + Payload(s, order) + rest;
    assert input == HeaderCells(h') + (Payload(s, order) + rest);
    ReadHeaderCells(h', Payload(s, order) + rest);
    DecodeUnfold(input, hash, table0, check);
  }

  // ---------------------------------------------------------------------
  // Generating from a loaded model
  // ---------------------------------------------------------------------

  /**
   * A model whose training table was consistent and whose word offsets lie
   * inside its buffer (as `WellFormed` gives), saved and loaded back as
   * `DecodeEncode` shows, generates without error from every prefix that has a row
   * (generator.cpp:136-148): the row is never empty, and a draw no larger
   * than the row's largest key selects an entry whose word the model holds
   * and whose successor is an interned window.
   */
  lemma LoadedRowsEmit(s: Snapshot, m: Model, state: seq<nat>, r: nat, out: Emitted, next: seq<nat>)
    requires TableConsistent(s) && forall o :: o in s.wordIndex ==> o < |s.wordData|
    requires m.wordData == s.wordData && m.table == Cumulated(s.table)
    requires |state| > 0 && state[|state| - 1] in s.table
    requires m.Generated(state, r, out, next)
    ensures out != Throw("invalid prefix")
    ensures var drawn := Cumulate(s.table[state[|state| - 1]]);
      (exists k :: k in drawn && r <= k) ==>
        exists o, q :: && o in s.wordIndex && q in s.prefIndex
                       && out == Emit(CStr(s.wordData, o)) && next == state[..|state| - 1] + [q]
  {
    var p := state[|state| - 1];
    SelectedEntryHeld(s, p, r);
    var c := m.table[p];
    assert c == Cumulated(s.table)[p] == Cumulate(s.table[p]);
    if exists k :: k in c && r <= k {
      var e := c[LeastAtLeast(c.Keys, r)];
      assert out == Emit(CStr(s.wordData, e.0)) && next == state[..|state| - 1] + [e.1];
    }
  }

  /** The entry a draw selects in a loaded row names a held word and an interned window. */
  lemma SelectedEntryHeld(s: Snapshot, p: nat, r: nat)
    requires TableConsistent(s) && p in s.table
    requires forall o :: o in s.wordIndex ==> o < |s.wordData|
    ensures Cumulated(s.table)[p] != map[]
    ensures var c := Cumulated(s.table)[p];
      (exists k :: k in c && r <= k) ==>
        var e := c[LeastAtLeast(c.Keys, r)];
        e.0 in s.wordIndex && e.0 < |s.wordData| && e.1 in s.prefIndex
  {
    var c := Cumulated(s.table)[p];
    if exists k :: k in c && r <= k {
      var e := c[LeastAtLeast(c.Keys, r)];
      assert e.0 in s.table[p] && e.1 == s.table[p][e.0].1;
    }
  }

  // ---------------------------------------------------------------------
  // The bound check on loaded offsets
  // ---------------------------------------------------------------------

  /**
   * As written, the check lets through the largest size_t as a word offset
   * even into an empty buffer: NPOS + 1 wraps to 0, which is not above 0.
   */
  lemma WrappedOffsetAccepted()
    ensures !RejectedAsWritten(NPOS, 1, 0)
    ensures !OffsetInRange(NPOS, 1, 0)
  {
  }

  /**
   * The whole stream that shows it: a header declaring an empty word buffer
   * and one word offset, that offset being the largest size_t, and a checksum
   * that matches under a hash sending every size to zero. The load as written
   * accepts it and indexes a word that does not exist; the intended check
   * refuses it.
   */
  lemma WrappedOffsetLoads()
    ensures var input := HeaderCells(Header(0, 0, 1, 0, 0, 0, 0)) + [Size(NPOS)];
      var zero := (v: u64) => Word64(0);
      && Decode(input, zero, map[], AsWritten) == Ok(Snapshot(0, [], [NPOS], [], [], map[]))
      && Decode(input, zero, map[], Intended) == Fail(WordOffsetOutOfRange)
  {
    var input := HeaderCells(Header(0, 0, 1, 0, 0, 0, 0)) + [Size(NPOS)];
    var zero := (v: u64) => Word64(0);
    var h := Header(0, 0, 1, 0, 0, 0, 0);
    assert ReadHeader(input) == Ok((h, [Size(NPOS)]));
    assert HeaderHash(h, zero) == AsWord(h.checksum);
    assert ReadChars([Size(NPOS)], 0) == Ok(([], [Size(NPOS)]));
    var none: seq<Cell> := [];
    assert [Size(NPOS)][1..] == none;
    assert ReadSize([Size(NPOS)]) == Ok((NPOS as u64, none));
    assert !RejectedAsWritten(NPOS, 1, 0);
    assert ReadIndex([Size(NPOS)], 1, Words([]), 0, 1, WordOffsetOutOfRange, [], AsWritten) == Ok(([NPOS], []));
    assert ReadIndex([Size(NPOS)], 1, Words([]), 0, 1, WordOffsetOutOfRange, [], Intended)
        == Fail(WordOffsetOutOfRange);
    assert ReadBlock([], 0) == Ok(([], []));
    assert ReadRows([], 0, map[]) == Ok((map[], []));
  }

  /** Without the wrap the two checks agree: only offsets whose end passes the buffer are refused. */
  lemma ChecksAgreeWithoutWrap(v: u64, extent: u64, limit: u64)
    requires v + extent < SIZE_MOD
    ensures RejectedAsWritten(v, extent, limit) <==> !OffsetInRange(v, extent, limit)
  {
  }

  // ---------------------------------------------------------------------
  // `save` and `load` as the loops the source runs
  // ---------------------------------------------------------------------

  lemma SizeCellsSnoc(xs: seq<nat>, i: nat)
    requires AllFit(xs) && i < |xs|
    ensures SizeCells(xs[..i + 1]) == SizeCells(xs[..i]) + [Size(xs[i])]
  {
  }

  lemma TableCellsAt(t: map<nat, Row>, order: seq<nat>, j: nat)
    requires Listed(t, order)
    requires j < |order|
    ensures TableCells(t, order[j..]) == RowCells(order[j], t[order[j]]) + TableCells(t, order[j + 1..])
  {
    assert order[j..][1..] == order[j + 1..];
  }

  lemma EntryCellsAt(row: Row, ks: seq<nat>, k: nat)
    requires RowFits(row) && (forall w :: w in ks ==> w in row) && k < |ks|
    ensures ks[k] in row
    ensures EntryCells(row, ks[k..])
         == [Size(ks[k]), Size(row[ks[k]].0), Size(row[ks[k]].1)] + EntryCells(row, ks[k + 1..])
  {
    assert ks[k] in ks;
    assert ks[k..][1..] == ks[k + 1..];
  }

  /** The offsets of an index, one write each (generator.cpp:115-117, :120-122). */
  method SaveOffsets(xs: seq<nat>) returns (out: seq<Cell>)
    requires AllFit(xs)
    ensures out == SizeCells(xs)
  {
    out := [];
    for i := 0 to |xs|
      invariant out == SizeCells(xs[..i])
    {
      SizeCellsSnoc(xs, i);
      out := out + [Size(xs[i])];
    }
    assert xs[..|xs|] == xs;
  }

  /** One row: its prefix id and size, then each entry (generator.cpp:124-128). */
  method SaveRow(p: u64, row: Row) returns (out: seq<Cell>)
    requires RowFits(row)
    ensures out == RowCells(p, row)
  {
    var ks := InOrder(row.Keys);
    out := [Size(p), Size(|row|)];
    assert ks[0..] == ks;
    for k := 0 to |ks|
      invariant out + EntryCells(row, ks[k..]) == RowCells(p, row)
    {
      var w := ks[k];
      EntryCellsAt(row, ks, k);
      var cells := [Size(w), Size(row[w].0), Size(row[w].1)];
      Regroup(out, cells, EntryCells(row, ks[k + 1..]));
      out := out + cells;
    }
  }

  /** Every row of the table, visited in `order` (generator.cpp:123-129). */
  method SaveRows(t: map<nat, Row>, order: seq<nat>) returns (out: seq<Cell>)
    requires Listed(t, order)
    ensures out == TableCells(t, order)
  {
    out := [];
    assert order[0..] == order;
    for j := 0 to |order|
      invariant out + TableCells(t, order[j..]) == TableCells(t, order)
    {
      var cells := SaveRow(order[j], t[order[j]]);
      SaveRowsStep(t, order, j, out, cells);
      out := out + cells;
    }
  }

  lemma SaveRowsStep(t: map<nat, Row>, order: seq<nat>, j: nat, out: seq<Cell>, cells: seq<Cell>)
    requires Listed(t, order) && j < |order|
    requires cells == RowCells(order[j], t[order[j]])
    ensures out + TableCells(t, order[j..]) == (out + cells) + TableCells(t, order[j + 1..])
  {
    TableCellsAt(t, order, j);
    Regroup(out, cells, TableCells(t, order[j + 1..]));
  }

  /**
   * `training::model::save` (generator.cpp:104-131): the header with its
   * checksum, the word buffer in one write, each word offset, the prefix buffer
   * in one write, each prefix offset, then each row of the table in `order`
   * with its entries in ascending word order.
   */
  method Save(m: Model, order: seq<nat>, hash: u64 -> Word64) returns (out: seq<Cell>)
    requires Fits(m.Snap()) && Enumerates(order, m.table)
    ensures out == Encode(m.Snap(), order, hash)
  {
    var snap := m.Snap();
    FitsRows(snap);
    assert forall i :: 0 <= i < |order| ==> order[i] in order;
    var header := HeaderCells(HeaderOf(snap, hash));
    var words := SaveOffsets(snap.wordIndex);
    var prefixes := SaveOffsets(snap.prefIndex);
    var rows := SaveRows(snap.table, order);
    var body := CharCells(snap.wordData) + words + SizeCells(snap.prefData) + prefixes + rows;
    assert body == Payload(snap, order);
    out := header + body;
  }

  /** n offsets read one at a time, checked, and inserted (generator.cpp:163-169, :173-179). */
  method LoadOffsets(s: seq<Cell>, n: nat, k: Keying, limit: u64, extent: u64, why: Failure, idx0: seq<nat>,
                     check: Check)
    returns (r: Result<(seq<nat>, seq<Cell>)>)
    ensures r == ReadIndex(s, n, k, limit, extent, why, idx0, check)
  {
    var cur: seq<Cell>, idx: seq<nat> := s, idx0;
    var i := 0;
    while i < n
      invariant i <= n
      invariant ReadIndex(cur, n - i, k, limit, extent, why, idx, check)
             == ReadIndex(s, n, k, limit, extent, why, idx0, check)
    {
      var read := ReadSize(cur);
      if read.Fail? {
        return Fail(read.error);
      }
      var v := read.value.0;
      if !Admits(check, v, extent, limit) {
        return Fail(why);
      }
      ReadIndexStep(cur, n - i, k, limit, extent, why, idx, v, read.value.1, check);
      idx := Insert(idx, k, v);
      cur := read.value.1;
      i := i + 1;
    }
    return Ok((idx, cur));
  }

  /** n entries of one row, keyed by the running sum of their counts (generator.cpp:184-188). */
  method LoadEntries(s: seq<Cell>, n: nat) returns (r: Result<(Row, seq<Cell>)>)
    ensures r == ReadEntries(s, n, 0, map[])
  {
    var cur: seq<Cell>, row: Row := s, map[];
    var sum: u64 := 0;
    var i := 0;
    while i < n
      invariant i <= n
      invariant ReadEntries(cur, n - i, sum, row) == ReadEntries(s, n, 0, map[])
    {
      var read := ReadBlock(cur, 3);
      if read.Fail? {
        return Fail(read.error);
      }
      var a := read.value.0;
      sum := (sum + a[1]) % SIZE_MOD;
      if sum !in row {
        row := row[sum := (a[0], a[2])];
      }
      cur := read.value.1;
      i := i + 1;
    }
    return Ok((row, cur));
  }

  /** n rows, each added unless its prefix id is already there (generator.cpp:180-190). */
  method LoadRows(s: seq<Cell>, n: nat, t0: map<nat, Row>) returns (r: Result<(map<nat, Row>, seq<Cell>)>)
    ensures r == ReadRows(s, n, t0)
  {
    var cur: seq<Cell>, t: map<nat, Row> := s, t0;
    var i := 0;
    while i < n
      invariant i <= n
      invariant ReadRows(cur, n - i, t) == ReadRows(s, n, t0)
    {
      var head := ReadBlock(cur, 2);
      if head.Fail? {
        return Fail(head.error);
      }
      var a := head.value.0;
      var entries := LoadEntries(head.value.1, a[1]);
      if entries.Fail? {
        return Fail(entries.error);
      }
      if a[0] !in t {
        t := t[a[0] := entries.value.0];
      }
      cur := entries.value.1;
      i := i + 1;
    }
    return Ok((t, cur));
  }

  lemma DecodeUnfold(s: seq<Cell>, hash: u64 -> Word64, table0: map<nat, Row>, check: Check)
    ensures ReadHeader(s).Fail? ==> Decode(s, hash, table0, check) == Fail(ReadHeader(s).error)
    ensures ReadHeader(s).Ok? ==>
      var (h, s1) := ReadHeader(s).value;
      Decode(s, hash, table0, check)
        == if HeaderHash(h, hash) != AsWord(h.checksum) then Fail(BadChecksum) else DecodeWords(h, s1, table0, check)
  {
  }

  lemma DecodeWordsUnfold(h: Header, s1: seq<Cell>, table0: map<nat, Row>, check: Check)
    ensures ReadChars(s1, h.wordDataSize).Fail? ==> DecodeWords(h, s1, table0, check) == Fail(ReadFailed)
    ensures ReadChars(s1, h.wordDataSize).Ok? ==>
      var (data, s2) := ReadChars(s1, h.wordDataSize).value;
      var words := ReadIndex(s2, h.wordIndexSize, Words(data), h.wordDataSize, 1, WordOffsetOutOfRange, [], check);
      && (words.Fail? ==> DecodeWords(h, s1, table0, check) == Fail(words.error))
      && (words.Ok? ==> DecodeWords(h, s1, table0, check)
                          == DecodePrefixes(h, data, words.value.0, words.value.1, table0, check))
  {
  }

  lemma DecodePrefixesUnfold(h: Header, data: seq<byte>, wordIndex: seq<nat>, s3: seq<Cell>, table0: map<nat, Row>,
                             check: Check)
    ensures ReadBlock(s3, h.prefDataSize).Fail? ==>
      DecodePrefixes(h, data, wordIndex, s3, table0, check) == Fail(ReadFailed)
    ensures ReadBlock(s3, h.prefDataSize).Ok? ==>
      var (prefData, s4) := ReadBlock(s3, h.prefDataSize).value;
      var prefixes := ReadIndex(s4, h.prefIndexSize, Windows(prefData, h.prefSize), h.prefDataSize,
                                h.prefSize, PrefixOffsetOutOfRange, [], check);
      && (prefixes.Fail? ==> DecodePrefixes(h, data, wordIndex, s3, table0, check) == Fail(prefixes.error))
      && (prefixes.Ok? ==>
            var rows := ReadRows(prefixes.value.1, h.tableSize, table0);
            && (rows.Fail? ==> DecodePrefixes(h, data, wordIndex, s3, table0, check) == Fail(rows.error))
            && (rows.Ok? ==> DecodePrefixes(h, data, wordIndex, s3, table0, check)
                               == Ok(Snapshot(h.prefSize, data, wordIndex, prefData, prefixes.value.0, rows.value.0))))
  {
  }

  /**
   * `generating::model::load` (generator.cpp:151-191) on a model with no
   * words yet: on success the model holds exactly what `Decode` gives, the
   * rows read added to the rows it had, and its indexes are ordered;
   * otherwise the status says why it stopped, and a header that cannot be
   * read or fails its checksum leaves the model untouched. The source's
   * load is `Load(m, input, hash, AsWritten)`.
   */
  method Load(m: Model, input: seq<Cell>, hash: u64 -> Word64, check: Check) returns (status: Status)
    requires m.wordIndex == []
    modifies m
    ensures var r := Decode(input, hash, old(m.table), check);
      && (r.Fail? ==> status == Failed(r.error))
      && (r.Ok? ==> status == Done && m.Snap() == r.value)
    ensures status == Done ==> m.Indexed()
    ensures ReadHeader(input).Fail? ==> m.Snap() == old(m.Snap())
    ensures ReadHeader(input).Ok? ==>
      var (h, s1) := ReadHeader(input).value;
      && (HeaderHash(h, hash) != AsWord(h.checksum) ==> m.Snap() == old(m.Snap()))
      && (HeaderHash(h, hash) == AsWord(h.checksum) && ReadChars(s1, h.wordDataSize).Ok? ==>
            m.wordData == ReadChars(s1, h.wordDataSize).value.0)
  {
    DecodeUnfold(input, hash, m.table, check);
    var header := ReadHeader(input);
    if header.Fail? {
      return Failed(header.error);
    }
    var h := header.value.0;
    if HeaderHash(h, hash) != AsWord(h.checksum) {
      return Failed(BadChecksum);
    }
    status := LoadWords(m, h, header.value.1, check);
  }

  /**
   * The words part of `load` (generator.cpp:161-169), then the rest. Once
   * the characters are read the word buffer holds them, whatever fails
   * later; a failure among the word offsets leaves the windows and the
   * table as they were.
   */
  method LoadWords(m: Model, h: Header, s1: seq<Cell>, check: Check) returns (status: Status)
    requires m.wordIndex == []
    modifies m
    ensures var r := DecodeWords(h, s1, old(m.table), check);
      && (r.Fail? ==> status == Failed(r.error))
      && (r.Ok? ==> status == Done && m.Snap() == r.value)
    ensures ReadChars(s1, h.wordDataSize).Ok? ==> m.wordData == ReadChars(s1, h.wordDataSize).value.0
    ensures ReadChars(s1, h.wordDataSize).Ok? ==>
      var (data, s2) := ReadChars(s1, h.wordDataSize).value;
      var words := ReadIndex(s2, h.wordIndexSize, Words(data), h.wordDataSize, 1, WordOffsetOutOfRange, [], check);
      words.Fail? ==>
        && m.prefWidth == old(m.prefWidth) && m.prefData == old(m.prefData)
        && m.prefIndex == old(m.prefIndex) && m.table == old(m.table)
  {
    DecodeWordsUnfold(h, s1, m.table, check);
    var chars := ReadChars(s1, h.wordDataSize);
    if chars.Fail? {
      return Failed(chars.error);
    }
    m.wordData := chars.value.0;
    var words := LoadOffsets(chars.value.1, h.wordIndexSize, Words(m.wordData), h.wordDataSize, 1,
                             WordOffsetOutOfRange, m.wordIndex, check);
    if words.Fail? {
      return Failed(words.error);
    }
    m.wordIndex := words.value.0;
    status := LoadPrefixes(m, h, words.value.1, check);
  }

  /**
   * The prefixes and the table part of `load` (generator.cpp:170-190). It
   * leaves the words alone; once the window buffer is read the model holds
   * it with the header's width, whatever fails later; a failure among the
   * window offsets leaves the table as it was.
   */
  method LoadPrefixes(m: Model, h: Header, s3: seq<Cell>, check: Check) returns (status: Status)
    modifies m
    ensures var r := DecodePrefixes(h, old(m.wordData), old(m.wordIndex), s3, old(m.table), check);
      && (r.Fail? ==> status == Failed(r.error))
      && (r.Ok? ==> status == Done && m.Snap() == r.value)
    ensures m.wordData == old(m.wordData) && m.wordIndex == old(m.wordIndex)
    ensures ReadBlock(s3, h.prefDataSize).Ok? ==>
      m.prefData == ReadBlock(s3, h.prefDataSize).value.0 && m.prefWidth == h.prefSize
    ensures ReadBlock(s3, h.prefDataSize).Ok? ==>
      var (prefData, s4) := ReadBlock(s3, h.prefDataSize).value;
      var prefixes := ReadIndex(s4, h.prefIndexSize, Windows(prefData, h.prefSize), h.prefDataSize, h.prefSize,
                                PrefixOffsetOutOfRange, [], check);
      prefixes.Fail? ==> m.table == old(m.table)
  {
    DecodePrefixesUnfold(h, m.wordData, m.wordIndex, s3, m.table, check);
    var block := ReadBlock(s3, h.prefDataSize);
    if block.Fail? {
      return Failed(block.error);
    }
    m.prefData := block.value.0;
    m.prefIndex, m.prefWidth := [], h.prefSize;
    var prefixes := LoadOffsets(block.value.1, h.prefIndexSize, Windows(m.prefData, m.prefWidth), h.prefDataSize,
                                h.prefSize, PrefixOffsetOutOfRange, m.prefIndex, check);
    if prefixes.Fail? {
      return Failed(prefixes.error);
    }
    m.prefIndex := prefixes.value.0;
    var rows := LoadRows(prefixes.value.1, h.tableSize, m.table);
    if rows.Fail? {
      return Failed(rows.error);
    }
    m.table := rows.value.0;
    status := Done;
  }
}
