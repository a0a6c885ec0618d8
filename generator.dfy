/**
 * The Markov-chain model store (generator.h, generator.cpp): interned words,
 * interned fixed-width prefixes, the prefix -> successor table, one training
 * step, one generation step, and the session helpers that seed and thread a
 * state through them.
 *
 * The C++ source has a base class `model` with two subclasses,
 * `training::model` (adds `train` and `save`) and `generating::model` (adds
 * `generate` and `load`), which add no fields. Here one class `Model` holds
 * the base fields and carries the operations of both roles.
 */
module Generator {
  import opened Lex

  /**
   * One table row: std::map<size_t, std::pair<size_t, size_t>>.
   * Training shape: word id -> (occurrence count, successor prefix id).
   * Generating shape: cumulative count bound -> (word id, successor prefix id).
   */
  type Row = map<nat, (nat, nat)>

  /** What one call of `generate` does (generator.cpp:133-149). */
  datatype Emitted =
    | Halt                 // returns nullptr: no row for the current prefix
    | Emit(word: seq<byte>) // returns the word's C string
    | Throw(what: string)  // throws std::invalid_argument(what)

  /**
   * `table[p][w]` for a training table after `++first` and `second = succ`
   * (generator.cpp:99-101); operator[] creates a missing row or entry first.
   */
  function Bump(t: map<nat, Row>, p: nat, w: nat, succ: nat): (r: map<nat, Row>)
    ensures p in r && w in r[p] && r[p][w].1 == succ
    ensures r[p][w].0 == 1 + (if p in t && w in t[p] then t[p][w].0 else 0)
    ensures forall q :: q in r <==> q in t || q == p
    ensures forall v :: v in r[p] <==> v == w || (p in t && v in t[p])
    ensures forall q, v :: q in t && v in t[q] && (q != p || v != w) ==> v in r[q] && r[q][v] == t[q][v]
    ensures forall q :: q in t && q != p ==> r[q] == t[q]
  {
    var row: Row := if p in t then t[p] else map[];
    var count: nat := if w in row then row[w].0 else 0;
    t[p := row[w := (count + 1, succ)]]
  }

  /**
   * Where a new window is stored (generator.cpp:68-76): when the first n-1
   * ids of the window equal the last n-1 ids of the buffer, only its last id
   * is appended and the window starts n-1 places before the old end; otherwise
   * the whole window is appended at the old end.
   */
  function AppendWindow(ids: seq<nat>, pref: seq<nat>): (r: (nat, seq<nat>))
    ensures |ids| <= |r.1| && r.1[..|ids|] == ids
    ensures r.0 + |pref| == |r.1| && r.1[r.0..] == pref
    ensures var n := |pref|;
      if 0 < n <= |ids| && pref[..n - 1] == ids[|ids| - n + 1..]
      then |r.1| == |ids| + 1 && r.0 == |ids| - n + 1
      else |r.1| == |ids| + n && r.0 == |ids|
  {
    var n := |pref|;
    if 0 < n <= |ids| && pref[..n - 1] == ids[|ids| - n + 1..] then
      assert (ids + [pref[n - 1]])[|ids| - n + 1..] == pref[..n - 1] + [pref[n - 1]];
      (|ids| - n + 1, ids + [pref[n - 1]])
    else
      (|ids|, ids + pref)
  }

  /** Appending a word and its NUL leaves every indexed word as it was. */
  lemma AppendWordKeepsWords(data: seq<byte>, idx: seq<nat>, word: seq<byte>)
    requires data == [] || EndsWithNul(data)
    requires forall o :: o in idx ==> o < |data|
    ensures forall o :: o in idx ==> CStr(data + word + [0], o) == CStr(data, o)
  {
    forall o | o in idx ensures CStr(data + word + [0], o) == CStr(data, o) {
      assert data + word + [0] == data + (word + [0]);
      CStrStable(data, word + [0], o);
    }
  }

  /** Storing a new word keeps the word index ordered (generator.cpp:48-53). */
  lemma StoreNewWord(data: seq<byte>, idx: seq<nat>, i: nat, word: seq<byte>)
    requires data == [] || EndsWithNul(data)
    requires forall o :: o in idx ==> o < |data|
    requires Ascending(idx, Words(data)) && IsCString(word) && i <= |idx|
    requires forall j :: 0 <= j < i ==> LexLess(Key(Words(data), idx[j]), word)
    requires i < |idx| ==> LexLess(word, CStr(data, idx[i]))
    ensures CStr(data + word + [0], |data|) == word
    ensures forall o :: o in idx ==> CStr(data + word + [0], o) == CStr(data, o)
    ensures Ascending(idx[..i] + [|data|] + idx[i..], Words(data + word + [0]))
  {
    var k := Words(data + word + [0]);
    AppendWordKeepsWords(data, idx, word);
    CStrAppended(data, word);
    AscendingRekeyed(idx, Words(data), k);
    assert Key(k, |data|) == word;
    InsertKeepsAscending(idx, k, i, |data|);
  }

  /** Growing the window buffer at its end leaves every stored window as it was. */
  lemma GrowKeepsWindows(ids: seq<nat>, ids2: seq<nat>, width: nat, idx: seq<nat>)
    requires |ids| <= |ids2| && ids2[..|ids|] == ids
    requires forall o :: o in idx ==> o + width <= |ids|
    ensures forall o :: o in idx ==> Window(ids2, o, width) == Window(ids, o, width)
  {
    forall o | o in idx ensures Window(ids2, o, width) == Window(ids, o, width) {
      forall t | o <= t < o + width ensures ids2[t] == ids[t] {
        assert ids2[..|ids|][t] == ids2[t];
      }
    }
  }

  /** Storing a new window keeps the prefix index ordered (generator.cpp:66-77). */
  lemma StoreNewWindow(ids: seq<nat>, width: nat, idx: seq<nat>, i: nat, pref: seq<nat>, pos: nat, ids2: seq<nat>)
    requires |ids| <= |ids2| && ids2[..|ids|] == ids
    requires pos + width == |ids2| && ids2[pos..] == pref
    requires forall o :: o in idx ==> o + width <= |ids|
    requires Ascending(idx, Windows(ids, width)) && |pref| == width && i <= |idx|
    requires forall j :: 0 <= j < i ==> LexLess(Key(Windows(ids, width), idx[j]), pref)
    requires i < |idx| ==> LexLess(pref, Window(ids, idx[i], width))
    ensures Window(ids2, pos, width) == pref
    ensures forall o :: o in idx ==> Window(ids2, o, width) == Window(ids, o, width)
    ensures Ascending(idx[..i] + [pos] + idx[i..], Windows(ids2, width))
  {
    var k := Windows(ids2, width);
    GrowKeepsWindows(ids, ids2, width, idx);
    AscendingRekeyed(idx, Windows(ids, width), k);
    assert Key(k, pos) == pref;
    InsertKeepsAscending(idx, k, i, pos);
  }

  /** The fields of a model, as one value (what `save` writes and `load` rebuilds). */
  datatype Snapshot = Snapshot(
    prefWidth: nat,
    wordData: seq<byte>,
    wordIndex: seq<nat>,
    prefData: seq<nat>,
    prefIndex: seq<nat>,
    table: map<nat, Row>)

  /** Both indexes are ordered by their comparators. */
  ghost predicate Ordered(s: Snapshot)
  {
    Ascending(s.wordIndex, Words(s.wordData)) && Ascending(s.prefIndex, Windows(s.prefData, s.prefWidth))
  }

  /**
   * What a model built by training keeps true: ordered indexes, a word
   * buffer of whole C strings, every offset naming a word or a whole
   * window, and every count at least one.
   */
  ghost predicate WellFormed(s: Snapshot)
  {
    && Ordered(s)
    && (s.wordData == [] || EndsWithNul(s.wordData))
    && (forall o :: o in s.wordIndex ==> o < |s.wordData|)
    && (forall o :: o in s.prefIndex ==> o + s.prefWidth <= |s.prefData|)
    && (forall p, w :: p in s.table && w in s.table[p] ==> s.table[p][w].0 >= 1)
  }

  /** Storing a new word at its lower bound keeps a well-formed model well formed. */
  lemma WordStored(s: Snapshot, i: nat, word: seq<byte>)
    requires WellFormed(s) && IsCString(word) && i <= |s.wordIndex|
    requires forall j :: 0 <= j < i ==> LexLess(Key(Words(s.wordData), s.wordIndex[j]), word)
    requires i < |s.wordIndex| ==> LexLess(word, CStr(s.wordData, s.wordIndex[i]))
    ensures var s' := s.(wordData := s.wordData + word + [0],
                          wordIndex := s.wordIndex[..i] + [|s.wordData|] + s.wordIndex[i..]);
      && WellFormed(s')
      && CStr(s'.wordData, |s.wordData|) == word
      && (forall o :: o in s.wordIndex ==> CStr(s'.wordData, o) == CStr(s.wordData, o))
      && |s'.wordIndex| == |s.wordIndex| + 1
      && (forall o :: o in s'.wordIndex <==> o in s.wordIndex || o == |s.wordData|)
  {
    StoreNewWord(s.wordData, s.wordIndex, i, word);
    InsertedMembers(s.wordIndex, i, |s.wordData|);
    var data' := s.wordData + word + [0];
    assert EndsWithNul(data');
  }

  /** Storing a new window at its lower bound keeps a well-formed model well formed. */
  lemma WindowStored(s: Snapshot, i: nat, pref: seq<nat>, pos: nat, ids2: seq<nat>)
    requires WellFormed(s) && |pref| == s.prefWidth && i <= |s.prefIndex|
    requires |s.prefData| <= |ids2| && ids2[..|s.prefData|] == s.prefData
    requires pos + s.prefWidth == |ids2| && ids2[pos..] == pref
    requires forall j :: 0 <= j < i ==> LexLess(Key(Windows(s.prefData, s.prefWidth), s.prefIndex[j]), pref)
    requires i < |s.prefIndex| ==> LexLess(pref, Window(s.prefData, s.prefIndex[i], s.prefWidth))
    ensures var s' := s.(prefData := ids2, prefIndex := s.prefIndex[..i] + [pos] + s.prefIndex[i..]);
      && WellFormed(s')
      && Window(ids2, pos, s.prefWidth) == pref
      && (forall o :: o in s.prefIndex ==> Window(ids2, o, s.prefWidth) == Window(s.prefData, o, s.prefWidth))
      && |s'.prefIndex| == |s.prefIndex| + 1
      && (forall o :: o in s'.prefIndex <==> o in s.prefIndex || o == pos)
  {
    StoreNewWindow(s.prefData, s.prefWidth, s.prefIndex, i, pref, pos, ids2);
    InsertedMembers(s.prefIndex, i, pos);
  }

  /** Bumping an entry keeps a well-formed model well formed: every count stays at least one. */
  lemma BumpKeepsWellFormed(s: Snapshot, p: nat, w: nat, succ: nat)
    requires WellFormed(s)
    ensures WellFormed(s.(table := Bump(s.table, p, w, succ)))
  {
    var t: map<nat, Row> := Bump(s.table, p, w, succ);
    forall q: nat, v: nat | q in t && v in t[q] ensures t[q][v].0 >= 1 {
      if q != p || v != w {
        assert q in s.table && v in s.table[q];
      }
    }
  }

  /**
   * What training keeps true of the table (generator.cpp:88-102): every row
   * was created with an entry, every row's prefix id and every successor is
   * an interned window, and every entry's key is an interned word.
   */
  ghost predicate TableConsistent(s: Snapshot)
  {
    && (forall p :: p in s.table ==> s.table[p] != map[] && p in s.prefIndex)
    && (forall p, w :: p in s.table && w in s.table[p] ==> w in s.wordIndex && s.table[p][w].1 in s.prefIndex)
  }

  /** Interning more words and windows keeps a consistent table consistent. */
  lemma ConsistentGrows(s: Snapshot, s': Snapshot)
    requires TableConsistent(s) && s'.table == s.table
    requires forall o :: o in s.wordIndex ==> o in s'.wordIndex
    requires forall o :: o in s.prefIndex ==> o in s'.prefIndex
    ensures TableConsistent(s')
  {
    forall p, w | p in s'.table && w in s'.table[p] ensures w in s'.wordIndex && s'.table[p][w].1 in s'.prefIndex {
      assert w in s.wordIndex && s.table[p][w].1 in s.prefIndex;
    }
  }

  /** Bumping an entry whose prefix, word and successor are interned keeps the table consistent. */
  lemma BumpKeepsConsistent(s: Snapshot, p: nat, w: nat, succ: nat)
    requires TableConsistent(s)
    requires p in s.prefIndex && w in s.wordIndex && succ in s.prefIndex
    ensures TableConsistent(s.(table := Bump(s.table, p, w, succ)))
  {
    var t: map<nat, Row> := Bump(s.table, p, w, succ);
    forall q | q in t ensures t[q] != map[] && q in s.prefIndex {
      if q == p {
        assert w in t[q];
      }
    }
    forall q: nat, v: nat | q in t && v in t[q] ensures v in s.wordIndex && t[q][v].1 in s.prefIndex {
      if q != p || v != w {
        assert q in s.table && v in s.table[q];
      }
    }
  }

  /** Whether some word offset names `word`. */
  ghost predicate HasWordIn(s: Snapshot, word: seq<byte>)
  {
    exists o :: o in s.wordIndex && CStr(s.wordData, o) == word
  }

  /** Whether some window offset names `pref`. */
  ghost predicate HasWindowIn(s: Snapshot, pref: seq<nat>)
  {
    exists o :: o in s.prefIndex && Window(s.prefData, o, s.prefWidth) == pref
  }

  /**
   * What interning `word` at offset `id` does to the word buffer and index
   * (generator.cpp:45-55): a known word leaves both as they were; a new one
   * is appended with its NUL at the old end, which becomes its offset. Every
   * word kept reads as before, and the words held gain exactly `word`.
   */
  ghost predicate WordAdded(s: Snapshot, s': Snapshot, word: seq<byte>, id: nat)
  {
    && id in s'.wordIndex && CStr(s'.wordData, id) == word
    && (HasWordIn(s, word) ==> s'.wordData == s.wordData && s'.wordIndex == s.wordIndex)
    && (!HasWordIn(s, word) ==>
          && id == |s.wordData| && s'.wordData == s.wordData + word + [0]
          && |s'.wordIndex| == |s.wordIndex| + 1)
    && (forall o :: o in s'.wordIndex <==> o in s.wordIndex || o == id)
    && (forall o :: o in s.wordIndex ==> CStr(s'.wordData, o) == CStr(s.wordData, o))
    && WordsAt(s'.wordData, s'.wordIndex) == WordsAt(s.wordData, s.wordIndex) + {word}
  }

  /**
   * What interning the window `pref` at offset `id` does to the window
   * buffer and index (generator.cpp:63-80): a known window leaves both as
   * they were; a new one is stored as `AppendWindow` says and indexed. Every
   * window kept reads as before.
   */
  ghost predicate WindowAdded(s: Snapshot, s': Snapshot, pref: seq<nat>, id: nat)
  {
    && s'.prefWidth == s.prefWidth
    && id in s'.prefIndex && Window(s'.prefData, id, s.prefWidth) == pref
    && (HasWindowIn(s, pref) ==> s'.prefData == s.prefData && s'.prefIndex == s.prefIndex)
    && (!HasWindowIn(s, pref) ==>
          && (id, s'.prefData) == AppendWindow(s.prefData, pref)
          && |s'.prefIndex| == |s.prefIndex| + 1)
    && (forall o :: o in s'.prefIndex <==> o in s.prefIndex || o == id)
    && (forall o :: o in s.prefIndex ==> Window(s'.prefData, o, s.prefWidth) == Window(s.prefData, o, s.prefWidth))
  }

  /** A window added after words were interned was added to the model as it was before them. */
  lemma WindowAddedLater(s0: Snapshot, s1: Snapshot, s2: Snapshot, pref: seq<nat>, id: nat)
    requires s1.prefWidth == s0.prefWidth && s1.prefData == s0.prefData && s1.prefIndex == s0.prefIndex
    requires WindowAdded(s1, s2, pref, id)
    ensures WindowAdded(s0, s2, pref, id)
  {
    assert HasWindowIn(s1, pref) == HasWindowIn(s0, pref);
  }

  /**
   * Every id in the window buffer is an interned word: training only ever
   * stores windows of word ids (generator.cpp:88-102).
   */
  ghost predicate WindowsOfWords(s: Snapshot)
  {
    forall x :: x in s.prefData ==> x in s.wordIndex
  }

  /** The ids `AppendWindow` stores are the old ones and the window's. */
  lemma AppendWindowFrom(ids: seq<nat>, pref: seq<nat>)
    ensures forall x :: x in AppendWindow(ids, pref).1 ==> x in ids || x in pref
  {
    var r := AppendWindow(ids, pref);
    forall x | x in r.1 ensures x in ids || x in pref {
      var i :| 0 <= i < |r.1| && r.1[i] == x;
      if i < |ids| {
        assert r.1[..|ids|][i] == x;
      } else {
        assert r.1[r.0..][i - r.0] == x;
      }
    }
  }

  /** The ids at positions lo up to hi of `ids` are all offsets of `idx`. */
  ghost predicate IdsIn(ids: seq<nat>, lo: nat, hi: nat, idx: seq<nat>)
  {
    forall i :: lo <= i < hi && i < |ids| ==> ids[i] in idx
  }

  /**
   * Shifting a window of interned word ids left by one and appending an
   * interned word id gives a window of interned word ids.
   */
  lemma ShiftedOfWords(state: seq<nat>, wid: nat, next: seq<nat>, width: nat, idx: seq<nat>, idx': seq<nat>)
    requires |state| == width + 1 && |next| >= width
    requires next[..width] == (if width == 0 then [] else state[1..width] + [wid])
    requires IdsIn(state, 1, width, idx)
    requires forall o :: o in idx ==> o in idx'
    requires wid in idx'
    ensures IdsIn(next, 0, width, idx')
  {
    forall i | 0 <= i < width ensures next[i] in idx' {
      assert next[..width][i] == next[i];
      if i < width - 1 {
        assert next[i] == state[i + 1];
      }
    }
  }

  /** Adding a window of interned words keeps the window buffer made of interned words. */
  lemma WindowsOfWordsGrow(s: Snapshot, s': Snapshot, pref: seq<nat>, id: nat)
    requires WindowsOfWords(s) && WindowAdded(s, s', pref, id)
    requires forall o :: o in s.wordIndex ==> o in s'.wordIndex
    requires forall x :: x in pref ==> x in s'.wordIndex
    ensures WindowsOfWords(s')
  {
    if !HasWindowIn(s, pref) {
      AppendWindowFrom(s.prefData, pref);
    }
  }

  /**
   * A training step (`Model.Train`) keeps the window buffer made of interned
   * words, provided the ids it shifts out of the old state are interned words.
   */
  lemma TrainedOfWords(s: Snapshot, s': Snapshot, state: seq<nat>, word: seq<byte>, wid: nat, next: seq<nat>)
    requires |state| == s.prefWidth + 1 && |next| == |state|
    requires next[..s.prefWidth] == (if s.prefWidth == 0 then [] else state[1..s.prefWidth] + [wid])
    requires WordAdded(s, s', word, wid)
    requires WindowAdded(s, s', next[..s.prefWidth], next[s.prefWidth])
    ensures WindowsOfWords(s) && IdsIn(state, 1, s.prefWidth, s.wordIndex) ==> WindowsOfWords(s')
  {
    if WindowsOfWords(s) && IdsIn(state, 1, s.prefWidth, s.wordIndex) {
      ShiftedOfWords(state, wid, next, s.prefWidth, s.wordIndex, s'.wordIndex);
      WindowsOfWordsGrow(s, s', next[..s.prefWidth], next[s.prefWidth]);
    }
  }

  /** The words named by the offsets of `idx` in `data`. */
  ghost function WordsAt(data: seq<byte>, idx: seq<nat>): set<seq<byte>>
  {
    set o | o in idx :: CStr(data, o)
  }

  /** Indexing one more word, and keeping the others, adds exactly that word. */
  lemma VocabularyGrows(data: seq<byte>, idx: seq<nat>, data2: seq<byte>, idx2: seq<nat>, id: nat, word: seq<byte>)
    requires forall o :: o in idx2 <==> o in idx || o == id
    requires forall o :: o in idx ==> CStr(data2, o) == CStr(data, o)
    requires CStr(data2, id) == word
    ensures WordsAt(data2, idx2) == WordsAt(data, idx) + {word}
  {
    forall x | x in WordsAt(data, idx) ensures x in WordsAt(data2, idx2) {
      var o :| o in idx && CStr(data, o) == x;
      assert CStr(data2, o) == x;
    }
  }

  /** The words the tokens of a seed name, each read through `c_str()`. */
  ghost function Tokens(seed: seq<seq<byte>>): set<seq<byte>>
  {
    set j | 0 <= j < |seed| :: CStrOf(seed[j])
  }

  /** One more token names one more word, or one already named. */
  lemma TokensSnoc(seed: seq<seq<byte>>, i: nat)
    requires i < |seed|
    ensures Tokens(seed[..i + 1]) == Tokens(seed[..i]) + {CStrOf(seed[i])}
  {
    var a, b := seed[..i + 1], seed[..i];
    forall x | x in Tokens(a) ensures x in Tokens(b) + {CStrOf(seed[i])} {
      var j :| 0 <= j < |a| && CStrOf(a[j]) == x;
      if j < i {
        assert b[j] == a[j];
      }
    }
    forall x | x in Tokens(b) ensures x in Tokens(a) {
      var j :| 0 <= j < |b| && CStrOf(b[j]) == x;
      assert a[j] == b[j];
    }
  }

  /**
   * The word buffer after interning the tokens of `seed` in order, each read
   * through `c_str()`, into a buffer holding the words of `known`: a token
   * that is neither known nor named by an earlier token is appended with its
   * NUL.
   */
  ghost function Interned(data: seq<byte>, known: set<seq<byte>>, seed: seq<seq<byte>>): seq<byte>
    decreases |seed|
  {
    if seed == [] then data
    else
      var n := |seed| - 1;
      var before := Interned(data, known, seed[..n]);
      var w := CStrOf(seed[n]);
      if w in known + Tokens(seed[..n]) then before else before + w + [0]
  }

  /**
   * Interning n empty tokens (the seed `first_prefix(n)`) appends one empty
   * word, a lone NUL, unless the empty word is known already or n is 0.
   */
  lemma {:induction false} InternedBlank(data: seq<byte>, known: set<seq<byte>>, seed: seq<seq<byte>>)
    requires forall j :: 0 <= j < |seed| ==> seed[j] == []
    ensures Interned(data, known, seed) == if seed == [] || [] in known then data else data + [0]
    decreases |seed|
  {
    if seed != [] {
      var n := |seed| - 1;
      var empty: seq<byte> := [];
      assert CStrOf(seed[n]) == empty;
      InternedBlank(data, known, seed[..n]);
      BlankTokens(seed[..n]);
      assert data + empty + [0] == data + [0];
    }
  }

  /**
   * Where interning the tokens of `seed` at the offsets `ids` leaves the word
   * buffer and index, from `s` to `s'`: each token's word is at its offset,
   * the buffer is `Interned`, the words held gain exactly the tokens' words,
   * the index gains only the offsets returned, and every word kept reads as
   * before.
   */
  ghost predicate WordsInterned(s: Snapshot, s': Snapshot, seed: seq<seq<byte>>, ids: seq<nat>)
  {
    && |ids| == |seed|
    && (forall j :: 0 <= j < |seed| ==> ids[j] in s'.wordIndex && CStr(s'.wordData, ids[j]) == CStrOf(seed[j]))
    && s'.wordData == Interned(s.wordData, WordsAt(s.wordData, s.wordIndex), seed)
    && WordsAt(s'.wordData, s'.wordIndex) == WordsAt(s.wordData, s.wordIndex) + Tokens(seed)
    && (forall o :: o in s'.wordIndex <==> o in s.wordIndex || o in ids)
    && (forall o :: o in s.wordIndex ==> CStr(s'.wordData, o) == CStr(s.wordData, o))
  }

  /** Interning one more token extends what the earlier ones did: `WordsInterned` for the longer seed. */
  lemma InternStep(s0: Snapshot, s: Snapshot, s': Snapshot, seed: seq<seq<byte>>, i: nat, ids: seq<nat>, id: nat)
    requires i < |seed|
    requires WordsInterned(s0, s, seed[..i], ids)
    requires WordAdded(s, s', CStrOf(seed[i]), id)
    ensures |ids + [id]| == |seed[..i + 1]|
    ensures forall j :: 0 <= j < |seed[..i + 1]| ==>
      (ids + [id])[j] in s'.wordIndex && CStr(s'.wordData, (ids + [id])[j]) == CStrOf(seed[..i + 1][j])
    ensures s'.wordData == Interned(s0.wordData, WordsAt(s0.wordData, s0.wordIndex), seed[..i + 1])
    ensures WordsAt(s'.wordData, s'.wordIndex) == WordsAt(s0.wordData, s0.wordIndex) + Tokens(seed[..i + 1])
    ensures forall o :: o in s'.wordIndex <==> o in s0.wordIndex || o in ids + [id]
    ensures forall o :: o in s0.wordIndex ==> CStr(s'.wordData, o) == CStr(s0.wordData, o)
  {
    InternedStepData(s0, s, s', seed, i, id);
    InternedStepWords(s0, s, s', seed, i);
    InternedStepIds(s, s', seed, i, ids, id);
    InternedStepIndex(s0, s, s', ids, id);
  }

  /** The buffer after one more token is what `Interned` gives for the longer seed. */
  lemma InternedStepData(s0: Snapshot, s: Snapshot, s': Snapshot, seed: seq<seq<byte>>, i: nat, id: nat)
    requires i < |seed|
    requires s.wordData == Interned(s0.wordData, WordsAt(s0.wordData, s0.wordIndex), seed[..i])
    requires WordsAt(s.wordData, s.wordIndex) == WordsAt(s0.wordData, s0.wordIndex) + Tokens(seed[..i])
    requires WordAdded(s, s', CStrOf(seed[i]), id)
    ensures s'.wordData == Interned(s0.wordData, WordsAt(s0.wordData, s0.wordIndex), seed[..i + 1])
  {
    var a := seed[..i + 1];
    assert a[..i] == seed[..i] && a[i] == seed[i];
    var w := CStrOf(seed[i]);
    assert HasWordIn(s, w) <==> w in WordsAt(s.wordData, s.wordIndex);
  }

  /** After one more token, the words held gain the longer seed's words. */
  lemma InternedStepWords(s0: Snapshot, s: Snapshot, s': Snapshot, seed: seq<seq<byte>>, i: nat)
    requires i < |seed|
    requires WordsAt(s.wordData, s.wordIndex) == WordsAt(s0.wordData, s0.wordIndex) + Tokens(seed[..i])
    requires WordsAt(s'.wordData, s'.wordIndex) == WordsAt(s.wordData, s.wordIndex) + {CStrOf(seed[i])}
    ensures WordsAt(s'.wordData, s'.wordIndex) == WordsAt(s0.wordData, s0.wordIndex) + Tokens(seed[..i + 1])
  {
    TokensSnoc(seed, i);
  }

  /** After one more offset, the index gains only the offsets returned and keeps every old word. */
  lemma InternedStepIndex(s0: Snapshot, s: Snapshot, s': Snapshot, ids: seq<nat>, id: nat)
    requires forall o :: o in s.wordIndex <==> o in s0.wordIndex || o in ids
    requires forall o :: o in s0.wordIndex ==> CStr(s.wordData, o) == CStr(s0.wordData, o)
    requires forall o :: o in s'.wordIndex <==> o in s.wordIndex || o == id
    requires forall o :: o in s.wordIndex ==> CStr(s'.wordData, o) == CStr(s.wordData, o)
    ensures forall o :: o in s'.wordIndex <==> o in s0.wordIndex || o in ids + [id]
    ensures forall o :: o in s0.wordIndex ==> CStr(s'.wordData, o) == CStr(s0.wordData, o)
  {
  }

  /** After one more token, every token's word is at its offset. */
  lemma InternedStepIds(s: Snapshot, s': Snapshot, seed: seq<seq<byte>>, i: nat, ids: seq<nat>, id: nat)
    requires i < |seed| && |ids| == i
    requires forall j :: 0 <= j < i ==> ids[j] in s.wordIndex && CStr(s.wordData, ids[j]) == CStrOf(seed[..i][j])
    requires WordAdded(s, s', CStrOf(seed[i]), id)
    ensures forall j :: 0 <= j < |seed[..i + 1]| ==>
      (ids + [id])[j] in s'.wordIndex && CStr(s'.wordData, (ids + [id])[j]) == CStrOf(seed[..i + 1][j])
  {
    var a, ids' := seed[..i + 1], ids + [id];
    forall j | 0 <= j < |a| ensures ids'[j] in s'.wordIndex && CStr(s'.wordData, ids'[j]) == CStrOf(a[j]) {
      if j < i {
        assert ids'[j] == ids[j] && a[j] == seed[..i][j];
      }
    }
  }

  /** The words a seed of n empty tokens names: the empty word, once, unless n is 0. */
  lemma BlankTokens(seed: seq<seq<byte>>)
    requires forall j :: 0 <= j < |seed| ==> seed[j] == []
    ensures Tokens(seed) == if seed == [] then {} else {[]}
  {
    if seed != [] {
      assert CStrOf(seed[0]) == [];
    }
  }

  class Model {
    /** Unique NUL-terminated words, back to back. */
    var wordData: seq<byte>
    /** Offsets of the words, in the order of the `strcmp` comparator. */
    var wordIndex: seq<nat>
    /** Fixed-width windows of word ids, possibly overlapping. */
    var prefData: seq<nat>
    /** Offsets of the windows, in the order of the `lgcmp` comparator. */
    var prefIndex: seq<nat>
    /** The window width captured by the `lgcmp` comparator. */
    var prefWidth: nat
    /** Prefix id -> row (std::unordered_map; its order is not modelled). */
    var table: map<nat, Row>

    /** The fields as one value. */
    function Snap(): Snapshot
      reads this
    {
      Snapshot(prefWidth, wordData, wordIndex, prefData, prefIndex, table)
    }

    /** Both indexes are ordered by their comparators. */
    ghost predicate Indexed()
      reads this
    {
      Ordered(Snap())
    }

    /** What a model built by training keeps true. */
    ghost predicate Valid()
      reads this
    {
      WellFormed(Snap())
    }

    ghost predicate HasWord(word: seq<byte>)
      reads this
    {
      HasWordIn(Snap(), word)
    }

    ghost predicate HasPrefix(pref: seq<nat>)
      reads this
    {
      HasWindowIn(Snap(), pref)
    }

    /** The words the model holds. */
    ghost function Vocabulary(): set<seq<byte>>
      reads this
    {
      WordsAt(wordData, wordIndex)
    }

    /** `model(pref_size)` (generator.h:22-24): everything empty, the window width fixed. */
    constructor (prefSize: nat)
      ensures wordData == [] && wordIndex == [] && prefData == [] && prefIndex == []
      ensures table == map[]
      ensures PrefSize() == prefSize
      ensures Valid() && TableConsistent(Snap()) && WindowsOfWords(Snap())
    {
      wordData, wordIndex := [], [];
      prefData, prefIndex := [], [];
      prefWidth := prefSize;
      table := map[];
    }

    /**
     * `pref_size()` (generator.h:26): the width the prefix comparator was
     * built with, which is the number of ids every indexed window spans.
     */
    function PrefSize(): (r: nat)
      reads this
      ensures Valid() ==> forall o :: o in prefIndex ==> o + r <= |prefData|
    {
      prefWidth
    }

    /**
     * `insert(const char*)` (generator.cpp:45-55): the offset of the word,
     * appending the word and its NUL and indexing the old buffer size when the
     * word is new.
     */
    method InsertWord(word: seq<byte>) returns (id: nat)
      requires Valid() && IsCString(word)
      modifies this
      ensures Valid()
      ensures prefData == old(prefData) && prefIndex == old(prefIndex)
      ensures prefWidth == old(prefWidth) && table == old(table)
      ensures WordAdded(old(Snap()), Snap(), word, id)
      ensures id == Lookup(wordIndex, Words(wordData), word)
    {
      var i := LowerBound(wordIndex, Words(wordData), word);
      MatchAtLowerBound(wordIndex, Words(wordData), word);
      if i == |wordIndex| || LexLess(word, CStr(wordData, wordIndex[i])) {
        ghost var s := Snap();
        assert !HasWord(word);
        var pos := |wordData|;
        WordStored(s, i, word);
        wordData := wordData + word + [0];
        var at: seq<nat> := [pos];
        wordIndex := wordIndex[..i] + at + wordIndex[i..];
        id := pos;
        assert Snap() == s.(wordData := s.wordData + word + [0],
                            wordIndex := s.wordIndex[..i] + [|s.wordData|] + s.wordIndex[i..]);
      } else {
        id := wordIndex[i];
      }
      LookupUnique(wordIndex, Words(wordData), id, word);
      VocabularyGrows(old(wordData), old(wordIndex), wordData, wordIndex, id, word);
      assert old(HasWord(word)) == HasWordIn(old(Snap()), word);
    }

    /** `find(const char*)` (generator.cpp:57-61): the word's offset, or `~0`. */
    method FindWord(word: seq<byte>) returns (id: nat)
      requires Indexed() && IsCString(word)
      ensures id == Lookup(wordIndex, Words(wordData), word)
      ensures HasWord(word) ==> id in wordIndex && CStr(wordData, id) == word
      ensures !HasWord(word) ==> id == NPOS
    {
      id := Find(wordIndex, Words(wordData), word);
    }

    /**
     * `insert(const std::list<size_t>&)` (generator.cpp:63-80): the offset
     * of the window, storing it as `AppendWindow` says when it is new.
     */
    method InsertPrefix(pref: seq<nat>) returns (id: nat)
      requires Valid() && |pref| == prefWidth
      modifies this
      ensures Valid()
      ensures wordData == old(wordData) && wordIndex == old(wordIndex)
      ensures prefWidth == old(prefWidth) && table == old(table)
      ensures WindowAdded(old(Snap()), Snap(), pref, id)
      ensures id == Lookup(prefIndex, Windows(prefData, prefWidth), pref)
    {
      var i := LowerBound(prefIndex, Windows(prefData, prefWidth), pref);
      MatchAtLowerBound(prefIndex, Windows(prefData, prefWidth), pref);
      if i == |prefIndex| || LexLess(pref, Window(prefData, prefIndex[i], prefWidth)) {
        var stored := AppendWindow(prefData, pref);
        WindowStored(Snap(), i, pref, stored.0, stored.1);
        prefData := stored.1;
        prefIndex := prefIndex[..i] + [stored.0] + prefIndex[i..];
        id := stored.0;
      } else {
        id := prefIndex[i];
      }
      LookupUnique(prefIndex, Windows(prefData, prefWidth), id, pref);
    }

    /** `find(const std::list<size_t>&)` (generator.cpp:82-86): the window's offset, or `~0`. */
    method FindPrefix(pref: seq<nat>) returns (id: nat)
      requires Indexed()
      ensures id == Lookup(prefIndex, Windows(prefData, prefWidth), pref)
      ensures HasPrefix(pref) ==> id in prefIndex && Window(prefData, id, prefWidth) == pref
      ensures !HasPrefix(pref) ==> id == NPOS
    {
      id := Find(prefIndex, Windows(prefData, prefWidth), pref);
    }

    /**
     * One training step relates the old state, the id of the trained word,
     * the new state and the table before the step: the oldest word id and the
     * old prefix id leave the window, the word id and the id of the new window
     * join it, and the old prefix's entry for the word is bumped.
     */
    ghost predicate Trained(state: seq<nat>, wid: nat, next: seq<nat>, before: map<nat, Row>)
      reads this
    {
      && |state| == prefWidth + 1
      && |next| == |state|
      && next[..prefWidth] == (if prefWidth == 0 then [] else state[1..prefWidth] + [wid])
      && next[prefWidth] in prefIndex
      && Window(prefData, next[prefWidth], prefWidth) == next[..prefWidth]
      && table == Bump(before, state[prefWidth], wid, next[prefWidth])
    }

    /**
     * `training::model::train` (generator.cpp:88-102). The C++ list is
     * updated in place; here the updated list is returned. `wid` names the
     * interned word's id for the contract.
     */
    method Train(state: seq<nat>, word: seq<byte>) returns (next: seq<nat>, ghost wid: nat)
      requires Valid() && IsCString(word) && |state| == prefWidth + 1
      modifies this
      ensures Valid() && prefWidth == old(prefWidth)
      ensures wid in wordIndex && CStr(wordData, wid) == word
      ensures Trained(state, wid, next, old(table))
      ensures WordAdded(old(Snap()), Snap(), word, wid)
      ensures WindowAdded(old(Snap()), Snap(), next[..prefWidth], next[prefWidth])
      ensures old(TableConsistent(Snap())) && state[prefWidth] in old(prefIndex) ==> TableConsistent(Snap())
    {
      ghost var s0 := Snap();
      var wordPos := InsertWord(word);
      wid := wordPos;
      ghost var s1 := Snap();
      var prefPos := state[|state| - 1];
      var window := state[..|state| - 1];
      if window != [] {
        window := window[1..] + [wordPos];
      }
      var pid := InsertPrefix(window);
      next := window + [pid];
      assert next[..prefWidth] == window;
      ghost var s2 := Snap();
      WindowAddedLater(s0, s1, s2, window, pid);
      if TableConsistent(s0) && prefPos in s0.prefIndex {
        ConsistentGrows(s0, s2);
        BumpKeepsConsistent(s2, prefPos, wordPos, pid);
      }
      BumpKeepsWellFormed(s2, prefPos, wordPos, pid);
      table := Bump(table, prefPos, wordPos, pid);
      assert Snap() == s2.(table := Bump(s2.table, prefPos, wordPos, pid));
    }

    /**
     * One generation step relates the state, the random draw r, the outcome
     * and the new state (generator.cpp:136-148): no row for the last id of the
     * state halts; an empty row is "invalid prefix"; otherwise the entry with
     * the least key not below r is chosen ("invalid frequency" if none), its
     * word offset must lie inside the word buffer ("invalid word"), and then
     * the last id becomes the entry's successor and its word is returned.
     * Every failure leaves the state as it was.
     */
    ghost predicate Generated(state: seq<nat>, r: nat, out: Emitted, next: seq<nat>)
      reads this
    {
      && |state| > 0
      && var p := state[|state| - 1];
        if p !in table then out == Halt && next == state
        else if table[p] == map[] then out == Throw("invalid prefix") && next == state
        else if forall k :: k in table[p] ==> k < r then out == Throw("invalid frequency") && next == state
        else
          var entry := table[p][LeastAtLeast(table[p].Keys, r)];
          if |wordData| <= entry.0 then out == Throw("invalid word") && next == state
          else out == Emit(CStr(wordData, entry.0)) && next == state[..|state| - 1] + [entry.1]
    }

    /**
     * `generating::model::generate` (generator.cpp:133-149). The random draw
     * `random(1, max key, urng)` is the parameter r; a draw in that range
     * never meets the "invalid frequency" exit.
     */
    method Generate(state: seq<nat>, r: nat) returns (out: Emitted, next: seq<nat>)
      requires |state| > 0
      ensures Generated(state, r, out, next)
      ensures |next| == |state|
      ensures var p := state[|state| - 1];
        p in table && (exists k :: k in table[p] && r <= k) ==> out != Throw("invalid frequency")
    {
      var p := state[|state| - 1];
      if p !in table {
        return Halt, state;
      }
      var row := table[p];
      if row == map[] {
        return Throw("invalid prefix"), state;
      }
      var above := set k | k in row.Keys && r <= k;
      if above == {} {
        return Throw("invalid frequency"), state;
      }
      HasLeast(above);
      var k :| IsLeast(k, above);
      assert k == LeastAtLeast(row.Keys, r);
      var entry := row[k];
      if |wordData| <= entry.0 {
        return Throw("invalid word"), state;
      }
      out := Emit(CStr(wordData, entry.0));
      next := state[..|state| - 1] + [entry.1];
    }

    /**
     * What the training `state(m, list)` builds (generator.h:132-139): the
     * id of each token (read through `c_str()`), then the id of that window.
     */
    ghost predicate IsInternedState(seed: seq<seq<byte>>, state: seq<nat>)
      reads this
    {
      && |state| == |seed| + 1
      && (forall i :: 0 <= i < |seed| ==> state[i] in wordIndex && CStr(wordData, state[i]) == CStrOf(seed[i]))
      && state[|seed|] in prefIndex
      && Window(prefData, state[|seed|], prefWidth) == state[..|seed|]
    }

    /**
     * What the generating `state(m, list)` builds (generator.h:141-148): the
     * `find` result of each token, then the `find` result of that window;
     * each is `~0` when nothing matches.
     */
    ghost predicate IsLookupState(seed: seq<seq<byte>>, state: seq<nat>)
      reads this
      requires Indexed()
    {
      && |state| == |seed| + 1
      && (forall i :: 0 <= i < |seed| ==> state[i] == Lookup(wordIndex, Words(wordData), CStrOf(seed[i])))
      && state[|seed|] == Lookup(prefIndex, Windows(prefData, prefWidth), state[..|seed|])
    }
  }

  /** `first_prefix(n)` (generator.h:127-130): n empty strings. */
  function FirstPrefix(n: nat): (r: seq<seq<byte>>)
    ensures |r| == n
    ensures forall i :: 0 <= i < n ==> r[i] == []
  {
    seq(n, _ => [])
  }

  /**
   * The `transform` half of the training `state` (generator.h:134-136): the
   * id of each token, read through `c_str()` and interned in order.
   */
  method InternWords(m: Model, seed: seq<seq<byte>>) returns (ids: seq<nat>)
    requires m.Valid()
    modifies m
    ensures m.Valid() && m.prefWidth == old(m.prefWidth) && m.table == old(m.table)
    ensures m.prefData == old(m.prefData) && m.prefIndex == old(m.prefIndex)
    ensures WordsInterned(old(m.Snap()), m.Snap(), seed, ids)
    ensures old(WindowsOfWords(m.Snap())) ==> WindowsOfWords(m.Snap())
  {
    ids := [];
    ghost var s0 := m.Snap();
    assert WordsAt(s0.wordData, s0.wordIndex) + Tokens(seed[..0]) == WordsAt(s0.wordData, s0.wordIndex);
    for i := 0 to |seed|
      invariant m.Valid() && m.prefWidth == old(m.prefWidth) && m.table == old(m.table)
      invariant m.prefData == old(m.prefData) && m.prefIndex == old(m.prefIndex)
      invariant WordsInterned(s0, m.Snap(), seed[..i], ids)
    {
      ghost var s := m.Snap();
      var id := m.InsertWord(CStrOf(seed[i]));
      InternStep(s0, s, m.Snap(), seed, i, ids, id);
      ids := ids + [id];
    }
    assert seed[..|seed|] == seed;
  }

  /** `state(training::model&, list)` (generator.h:132-139): the token ids, then the id of their window. */
  method TrainingState(m: Model, seed: seq<seq<byte>>) returns (state: seq<nat>)
    requires m.Valid() && |seed| == m.prefWidth
    modifies m
    ensures m.Valid() && m.prefWidth == old(m.prefWidth) && m.table == old(m.table)
    ensures m.IsInternedState(seed, state)
    ensures WordsInterned(old(m.Snap()), m.Snap(), seed, state[..|seed|])
    ensures WindowAdded(old(m.Snap()), m.Snap(), state[..|seed|], state[|seed|])
    ensures old(TableConsistent(m.Snap())) ==> TableConsistent(m.Snap())
    ensures old(WindowsOfWords(m.Snap())) ==> WindowsOfWords(m.Snap())
  {
    ghost var s0 := m.Snap();
    var ids := InternWords(m, seed);
    ghost var s1 := m.Snap();
    var pid := m.InsertPrefix(ids);
    state := ids + [pid];
    assert state[..|seed|] == ids;
    WindowAddedLater(s0, s1, m.Snap(), ids, pid);
    if TableConsistent(s0) {
      ConsistentGrows(s0, m.Snap());
    }
    if WindowsOfWords(s0) {
      WindowsOfWordsGrow(s1, m.Snap(), ids, pid);
    }
  }

  /** `state(const generating::model&, list)` (generator.h:141-148); it only reads the model. */
  method GeneratingState(m: Model, seed: seq<seq<byte>>) returns (state: seq<nat>)
    requires m.Indexed()
    ensures m.IsLookupState(seed, state)
  {
    state := [];
    for i := 0 to |seed|
      invariant |state| == i
      invariant forall j :: 0 <= j < i ==> state[j] == Lookup(m.wordIndex, Words(m.wordData), CStrOf(seed[j]))
    {
      var id := m.FindWord(CStrOf(seed[i]));
      state := state + [id];
    }
    var pid := m.FindPrefix(state);
    state := state + [pid];
  }

  /**
   * A seed whose window the model does not hold halts generation at once,
   * with no word and the state as it was (generator.cpp:136-138): the state
   * ends with `~0`, and `~0` is no row's prefix, because a row's prefix is an
   * interned window lying inside the window buffer, and a `std::vector` holds
   * fewer than 2^64 ids.
   */
  lemma UnknownSeedHalts(m: Model, seed: seq<seq<byte>>, state: seq<nat>, r: nat, out: Emitted, next: seq<nat>)
    requires m.Valid() && TableConsistent(m.Snap()) && 1 <= m.prefWidth && |m.prefData| < SIZE_MOD
    requires m.IsLookupState(seed, state) && !m.HasPrefix(state[..|seed|])
    requires m.Generated(state, r, out, next)
    ensures out == Halt && next == state
  {
    assert state[|seed|] == NPOS;
    assert NPOS !in m.prefIndex;
    assert NPOS !in m.table;
  }

  /** A window with `~0` in it is not interned when every window is made of interned words. */
  lemma WindowOfUnknownWord(s: Snapshot, t: seq<nat>, i: nat)
    requires WellFormed(s) && WindowsOfWords(s) && |s.wordData| < SIZE_MOD
    requires i < |t| && t[i] == NPOS
    ensures !HasWindowIn(s, t)
  {
    forall o | o in s.prefIndex ensures Window(s.prefData, o, s.prefWidth) != t {
      if i < s.prefWidth {
        var x := Window(s.prefData, o, s.prefWidth)[i];
        assert x == s.prefData[o + i];
        assert x in s.wordIndex;
      }
    }
  }

  /**
   * In a model whose windows are made of interned words, as training leaves
   * it, a seed with a word the model has never seen halts generation at once
   * too: that token looks up as `~0`, which is no interned word (a word offset
   * lies inside the word buffer), so no window holding it is interned.
   */
  lemma UnknownWordHalts(m: Model, seed: seq<seq<byte>>, i: nat, state: seq<nat>, r: nat, out: Emitted, next: seq<nat>)
    requires m.Valid() && TableConsistent(m.Snap()) && WindowsOfWords(m.Snap()) && 1 <= m.prefWidth
    requires |m.wordData| < SIZE_MOD && |m.prefData| < SIZE_MOD
    requires m.IsLookupState(seed, state) && i < |seed| && !m.HasWord(CStrOf(seed[i]))
    requires m.Generated(state, r, out, next)
    ensures out == Halt && next == state
  {
    assert state[..|seed|][i] == NPOS;
    WindowOfUnknownWord(m.Snap(), state[..|seed|], i);
    UnknownSeedHalts(m, seed, state, r, out, next);
  }

  /**
   * The closure returned by `train(m)` (generator.h:150-156): it seeds one
   * state from `first_prefix(pref_size)` when created and threads that state
   * through every `m.train` call.
   */
  class Trainer {
    const model: Model
    var state: seq<nat>

    /** The state is a window of interned word ids followed by the id of an interned window. */
    ghost predicate Valid()
      reads this, model
    {
      && model.Valid() && |state| == model.prefWidth + 1 && state[model.prefWidth] in model.prefIndex
      && IdsIn(state, 0, model.prefWidth, model.wordIndex)
    }

    /**
     * Seeding interns the empty word (once, unless the width is 0 or the
     * model holds it already) and the window of pref_size empty-word ids.
     */
    constructor (m: Model)
      requires m.Valid()
      modifies m
      ensures model == m && Valid()
      ensures m.prefWidth == old(m.prefWidth) && m.table == old(m.table)
      ensures m.IsInternedState(FirstPrefix(m.prefWidth), state)
      ensures WordsInterned(old(m.Snap()), m.Snap(), FirstPrefix(m.prefWidth), state[..m.prefWidth])
      ensures m.wordData == old(m.wordData) + (if m.prefWidth == 0 || old(m.HasWord([])) then [] else [0])
      ensures m.Vocabulary() == old(m.Vocabulary()) + (if m.prefWidth == 0 then {} else {[]})
      ensures WindowAdded(old(m.Snap()), m.Snap(), state[..m.prefWidth], state[m.prefWidth])
      ensures old(TableConsistent(m.Snap())) ==> TableConsistent(m.Snap())
      ensures old(WindowsOfWords(m.Snap())) ==> WindowsOfWords(m.Snap())
    {
      ghost var s0 := m.Snap();
      var seeded := TrainingState(m, FirstPrefix(m.PrefSize()));
      model, state := m, seeded;
      var empty: seq<byte> := [];
      assert HasWordIn(s0, empty) <==> empty in WordsAt(s0.wordData, s0.wordIndex);
      InternedBlank(s0.wordData, WordsAt(s0.wordData, s0.wordIndex), FirstPrefix(m.prefWidth));
      BlankTokens(FirstPrefix(m.prefWidth));
    }

    /** Calling the closure with a word: one training step, whose new state is kept. */
    method Call(word: seq<byte>) returns (ghost wid: nat)
      requires Valid() && IsCString(word)
      modifies this, model
      ensures Valid() && model.prefWidth == old(model.prefWidth)
      ensures model.Trained(old(state), wid, state, old(model.table))
      ensures WordAdded(old(model.Snap()), model.Snap(), word, wid)
      ensures WindowAdded(old(model.Snap()), model.Snap(), state[..model.prefWidth], state[model.prefWidth])
      ensures old(TableConsistent(model.Snap())) ==> TableConsistent(model.Snap())
      ensures old(WindowsOfWords(model.Snap())) ==> WindowsOfWords(model.Snap())
    {
      ghost var s0 := model.Snap();
      state, wid := model.Train(state, word);
      ShiftedOfWords(old(state), wid, state, model.prefWidth, s0.wordIndex, model.wordIndex);
      TrainedOfWords(s0, model.Snap(), old(state), word, wid, state);
    }
  }

  /**
   * The closure returned by `generate(m, list)` (generator.h:158-165): it
   * seeds its state from `first_prefix(pref_size)` when the list is empty and
   * from the list otherwise; the random engine it captures is replaced by
   * the draw passed to each call.
   */
  class Generation {
    const model: Model
    var state: seq<nat>

    ghost predicate Valid()
      reads this
    {
      |state| > 0
    }

    constructor (m: Model, seed: seq<seq<byte>>)
      requires m.Indexed()
      ensures model == m && Valid()
      ensures m.IsLookupState(if seed == [] then FirstPrefix(m.prefWidth) else seed, state)
    {
      var seeded := GeneratingState(m, if seed == [] then FirstPrefix(m.PrefSize()) else seed);
      model, state := m, seeded;
    }

    /** Calling the closure: one step with the draw r. */
    method Call(r: nat) returns (out: Emitted)
      requires Valid()
      modifies this
      ensures Valid()
      ensures model.Generated(old(state), r, out, state)
    {
      out, state := model.Generate(state, r);
    }
  }
}
