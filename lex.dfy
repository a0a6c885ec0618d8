/**
 * Orders and ordered indexes behind the model's two dictionaries
 * (generator.h:35-72).
 *
 * The C++ model keeps each dictionary as a buffer plus a std::set of offsets
 * into that buffer. The set is ordered by a "transparent" comparator that
 * resolves an offset to the value stored there (a NUL-terminated string for
 * words, a fixed-width window of ids for prefixes) and can also compare an
 * offset against a raw value that is not stored yet. Here such a set is a
 * strictly ascending sequence of offsets, a `Keying` says how an offset is
 * resolved, and lexicographic order on the resolved values is the comparator.
 */
module Lex {

  /** A `char` of a C string, compared as `unsigned char` by std::strcmp. */
  type byte = x: int | 0 <= x < 256

  /** std::size_t. */
  type u64 = x: int | 0 <= x < 0x1_0000_0000_0000_0000

  /** 2^64: std::size_t arithmetic is modulo this. */
  const SIZE_MOD: nat := 0x1_0000_0000_0000_0000

  /** `~std::size_t()`, what `find` returns when nothing matches. */
  const NPOS: nat := 0xFFFF_FFFF_FFFF_FFFF

  // ---------------------------------------------------------------------
  // Lexicographic order
  // ---------------------------------------------------------------------

  /** std::lexicographical_compare(a, b) with `<` on the elements. */
  predicate LexLess(a: seq<int>, b: seq<int>)
  {
    if |b| == 0 then false
    else if |a| == 0 then true
    else if a[0] != b[0] then a[0] < b[0]
    else LexLess(a[1..], b[1..])
  }

  lemma {:induction false} LexIrreflexive(a: seq<int>)
    ensures !LexLess(a, a)
  {
    if |a| > 0 {
      LexIrreflexive(a[1..]);
    }
  }

  lemma {:induction false} LexTransitive(a: seq<int>, b: seq<int>, c: seq<int>)
    requires LexLess(a, b) && LexLess(b, c)
    ensures LexLess(a, c)
  {
    if |a| > 0 && a[0] == b[0] && b[0] == c[0] {
      LexTransitive(a[1..], b[1..], c[1..]);
    }
  }

  lemma {:induction false} LexTotal(a: seq<int>, b: seq<int>)
    requires a != b
    ensures LexLess(a, b) || LexLess(b, a)
  {
    if |a| > 0 && |b| > 0 && a[0] == b[0] {
      assert a == [a[0]] + a[1..] && b == [b[0]] + b[1..];
      LexTotal(a[1..], b[1..]);
    }
  }

  /**
   * Two values are equivalent under the comparator (neither is less) exactly
   * when they are equal; this is what lets std::set::find locate a raw value.
   */
  lemma LexEquivalentIsEqual(a: seq<int>, b: seq<int>)
    ensures (!LexLess(a, b) && !LexLess(b, a)) <==> a == b
  {
    LexIrreflexive(a);
    if a != b {
      LexTotal(a, b);
    }
  }

  lemma LexAsymmetric(a: seq<int>, b: seq<int>)
    requires LexLess(a, b)
    ensures !LexLess(b, a)
  {
    if LexLess(b, a) {
      LexTransitive(a, b, a);
      LexIrreflexive(a);
    }
  }

  /** Concatenation regrouped, for the proofs that build streams and texts piece by piece. */
  lemma Regroup<T>(a: seq<T>, b: seq<T>, c: seq<T>)
    ensures a + (b + c) == (a + b) + c
  {
  }

  // ---------------------------------------------------------------------
  // C strings in a byte buffer (generator.h:35-48)
  // ---------------------------------------------------------------------

  /** A `const char*` argument: its bytes before the terminating NUL. */
  predicate IsCString(w: seq<byte>)
  {
    forall i :: 0 <= i < |w| ==> w[i] != 0
  }

  /** `s.c_str()` of a std::string read as a C string: it stops at the first NUL. */
  function CStrOf(s: seq<byte>): (w: seq<byte>)
    ensures IsCString(w) && w <= s
    ensures IsCString(s) ==> w == s
  {
    if s == [] || s[0] == 0 then [] else [s[0]] + CStrOf(s[1..])
  }

  /** The NUL-terminated string that starts at `off` in `data`. */
  function CStr(data: seq<byte>, off: nat): seq<byte>
    decreases |data| - off
  {
    if off >= |data| || data[off] == 0 then [] else [data[off]] + CStr(data, off + 1)
  }

  /** Every offset inside the buffer reaches a NUL before the buffer ends. */
  predicate EndsWithNul(data: seq<byte>)
  {
    |data| > 0 && data[|data| - 1] == 0
  }

  /**
   * `std::strcmp(a + i, b + j) < 0`: scan while the bytes agree and are not
   * NUL; the first differing byte decides, compared as unsigned.
   */
  predicate StrcmpLess(a: seq<byte>, i: nat, b: seq<byte>, j: nat)
    requires i < |a| && EndsWithNul(a) && j < |b| && EndsWithNul(b)
    decreases |a| - i
  {
    if a[i] != b[j] then a[i] < b[j]
    else if a[i] == 0 then false
    else StrcmpLess(a, i + 1, b, j + 1)
  }

  /**
   * All three `strcmp` comparator overloads (offset/offset, offset/raw,
   * raw/offset) order their arguments as the lexicographic order of the
   * strings they denote. A raw `const char*` w is the buffer `w + [0]` at 0.
   */
  lemma {:induction false} StrcmpOrdersStrings(a: seq<byte>, i: nat, b: seq<byte>, j: nat)
    requires i < |a| && EndsWithNul(a) && j < |b| && EndsWithNul(b)
    ensures StrcmpLess(a, i, b, j) == LexLess(CStr(a, i), CStr(b, j))
    decreases |a| - i
  {
    if a[i] == b[j] && a[i] != 0 {
      StrcmpOrdersStrings(a, i + 1, b, j + 1);
    }
  }

  /** Appending to a buffer that ends with NUL does not change any string in it. */
  lemma {:induction false} CStrStable(data: seq<byte>, ext: seq<byte>, off: nat)
    requires EndsWithNul(data) && off < |data|
    ensures CStr(data + ext, off) == CStr(data, off)
    decreases |data| - off
  {
    if data[off] != 0 {
      CStrStable(data, ext, off + 1);
    }
  }

  /** A word appended with its NUL reads back, at its offset, as that word. */
  lemma {:induction false} CStrAppended(data: seq<byte>, w: seq<byte>)
    requires IsCString(w)
    ensures CStr(data + w + [0], |data|) == w
    decreases |w|
  {
    if w != [] {
      CStrAppended(data + [w[0]], w[1..]);
      assert data + [w[0]] + w[1..] + [0] == data + w + [0];
    }
  }

  // ---------------------------------------------------------------------
  // Fixed-width windows of ids (generator.h:50-72)
  // ---------------------------------------------------------------------

  /**
   * The `width` ids starting at `off`: what `lgcmp` compares for an offset.
   * A window that would run past the buffer has no defined content in the
   * source (it reads past the vector); it resolves to the empty sequence here.
   */
  function Window(ids: seq<nat>, off: nat, width: nat): seq<nat>
  {
    if off + width <= |ids| then ids[off..off + width] else []
  }

  // ---------------------------------------------------------------------
  // Ordered index of offsets
  // ---------------------------------------------------------------------

  /** How an index resolves an offset: the comparator's captured buffer. */
  datatype Keying = Words(chars: seq<byte>) | Windows(ids: seq<nat>, width: nat)

  function Key(k: Keying, off: nat): seq<int>
  {
    match k
    case Words(chars) => CStr(chars, off)
    case Windows(ids, width) => Window(ids, off, width)
  }

  /** The iteration order of a std::set under the comparator: strictly ascending keys. */
  ghost predicate Ascending(idx: seq<nat>, k: Keying)
  {
    forall i, j {:trigger LexLess(Key(k, idx[i]), Key(k, idx[j]))} ::
      0 <= i < j < |idx| ==> LexLess(Key(k, idx[i]), Key(k, idx[j]))
  }

  /** A set ordered by the comparator holds each value at most once. */
  lemma AscendingKeysDistinct(idx: seq<nat>, k: Keying, i: nat, j: nat)
    requires Ascending(idx, k) && i < |idx| && j < |idx| && i != j
    ensures Key(k, idx[i]) != Key(k, idx[j])
  {
    if i < j {
      LexIrreflexive(Key(k, idx[i]));
    } else {
      LexIrreflexive(Key(k, idx[j]));
    }
  }

  /** Where `lower_bound(t)` stops: the number of leading entries whose key is below t. */
  function FirstNotLess(idx: seq<nat>, k: Keying, t: seq<int>): (i: nat)
    ensures i <= |idx|
  {
    if idx == [] || !LexLess(Key(k, idx[0]), t) then 0 else 1 + FirstNotLess(idx[1..], k, t)
  }

  /** A split point with "below t" before it and "not below t" at it is FirstNotLess. */
  lemma {:induction false} FirstNotLessAt(idx: seq<nat>, k: Keying, t: seq<int>, i: nat)
    requires i <= |idx|
    requires forall j :: 0 <= j < i ==> LexLess(Key(k, idx[j]), t)
    requires i < |idx| ==> !LexLess(Key(k, idx[i]), t)
    ensures FirstNotLess(idx, k, t) == i
  {
    if i > 0 {
      FirstNotLessAt(idx[1..], k, t, i - 1);
    }
  }

  /** In an ascending index FirstNotLess splits the entries into "below t" and "not below t". */
  lemma {:induction false} FirstNotLessSplits(idx: seq<nat>, k: Keying, t: seq<int>)
    requires Ascending(idx, k)
    ensures forall j :: 0 <= j < FirstNotLess(idx, k, t) ==> LexLess(Key(k, idx[j]), t)
    ensures forall j :: FirstNotLess(idx, k, t) <= j < |idx| ==> !LexLess(Key(k, idx[j]), t)
  {
    if idx != [] {
      FirstNotLessSplits(idx[1..], k, t);
      var i := FirstNotLess(idx, k, t);
      if i == 0 {
        forall j | 0 < j < |idx| ensures !LexLess(Key(k, idx[j]), t) {
          if LexLess(Key(k, idx[j]), t) {
            LexTransitive(Key(k, idx[0]), Key(k, idx[j]), t);
          }
        }
      } else {
        forall j | 0 <= j < i ensures LexLess(Key(k, idx[j]), t) {
          if j > 0 {
            assert idx[j] == idx[1..][j - 1];
          }
        }
        forall j | i <= j < |idx| ensures !LexLess(Key(k, idx[j]), t) {
          assert idx[j] == idx[1..][j - 1];
        }
      }
    }
  }

  /**
   * `std::set::lower_bound(t)` with the transparent comparator: a binary
   * search for the first entry whose key is not below the raw value t.
   */
  method LowerBound(idx: seq<nat>, k: Keying, t: seq<int>) returns (i: nat)
    requires Ascending(idx, k)
    ensures i == FirstNotLess(idx, k, t)
    ensures forall j :: 0 <= j < i ==> LexLess(Key(k, idx[j]), t)
    ensures forall j :: i <= j < |idx| ==> !LexLess(Key(k, idx[j]), t)
  {
    var lo, hi := 0, |idx|;
    while lo < hi
      invariant 0 <= lo <= hi <= |idx|
      invariant forall j :: 0 <= j < lo ==> LexLess(Key(k, idx[j]), t)
      invariant forall j :: hi <= j < |idx| ==> !LexLess(Key(k, idx[j]), t)
    {
      var mid := lo + (hi - lo) / 2;
      if LexLess(Key(k, idx[mid]), t) {
        forall j | lo <= j < mid ensures LexLess(Key(k, idx[j]), t) {
          LexTransitive(Key(k, idx[j]), Key(k, idx[mid]), t);
        }
        lo := mid + 1;
      } else {
        forall j | mid < j < hi ensures !LexLess(Key(k, idx[j]), t) {
          if LexLess(Key(k, idx[j]), t) {
            LexTransitive(Key(k, idx[mid]), Key(k, idx[j]), t);
          }
        }
        hi := mid;
      }
    }
    i := lo;
    FirstNotLessAt(idx, k, t, i);
  }

  /**
   * In an ascending index, the entry at the lower bound of t is equivalent to
   * t exactly when some entry has key t, and then its key is t.
   */
  lemma MatchAtLowerBound(idx: seq<nat>, k: Keying, t: seq<int>)
    requires Ascending(idx, k)
    ensures var i := FirstNotLess(idx, k, t);
      ((i < |idx| && !LexLess(t, Key(k, idx[i]))) <==> exists o :: o in idx && Key(k, o) == t)
      && (i < |idx| && !LexLess(t, Key(k, idx[i])) ==> Key(k, idx[i]) == t)
  {
    var i := FirstNotLess(idx, k, t);
    FirstNotLessSplits(idx, k, t);
    if i < |idx| {
      LexEquivalentIsEqual(t, Key(k, idx[i]));
    }
    if exists o :: o in idx && Key(k, o) == t {
      var j :| 0 <= j < |idx| && Key(k, idx[j]) == t;
      LexIrreflexive(t);
      assert i <= j;
      assert i == j;
    }
  }

  /**
   * `std::set::find(t)`: the entry whose key equals the raw value t, or the
   * `~0` sentinel when there is none.
   */
  function Lookup(idx: seq<nat>, k: Keying, t: seq<int>): (r: nat)
    requires Ascending(idx, k)
    ensures (exists o :: o in idx && Key(k, o) == t) ==> r in idx && Key(k, r) == t
    ensures (forall o :: o in idx ==> Key(k, o) != t) ==> r == NPOS
  {
    MatchAtLowerBound(idx, k, t);
    var i := FirstNotLess(idx, k, t);
    if i < |idx| && !LexLess(t, Key(k, idx[i])) then idx[i] else NPOS
  }

  /** In an ordered index, the offset stored under a key is the one a lookup of that key finds. */
  lemma LookupUnique(idx: seq<nat>, k: Keying, o: nat, t: seq<int>)
    requires Ascending(idx, k) && o in idx && Key(k, o) == t
    ensures Lookup(idx, k, t) == o
  {
    var r := Lookup(idx, k, t);
    if r != o {
      var i :| 0 <= i < |idx| && idx[i] == r;
      var j :| 0 <= j < |idx| && idx[j] == o;
      AscendingKeysDistinct(idx, k, i, j);
    }
  }

  /** The find half of the model's `find` operations, as a search over the index. */
  method Find(idx: seq<nat>, k: Keying, t: seq<int>) returns (r: nat)
    requires Ascending(idx, k)
    ensures r == Lookup(idx, k, t)
    ensures (exists o :: o in idx && Key(k, o) == t) ==> r in idx && Key(k, r) == t
    ensures (forall o :: o in idx ==> Key(k, o) != t) ==> r == NPOS
  {
    var i := LowerBound(idx, k, t);
    if i < |idx| && !LexLess(t, Key(k, idx[i])) {
      r := idx[i];
    } else {
      r := NPOS;
    }
  }

  /** The entries of an index after inserting v at position i. */
  lemma InsertedMembers(idx: seq<nat>, i: nat, v: nat)
    requires i <= |idx|
    ensures |idx[..i] + [v] + idx[i..]| == |idx| + 1
    ensures forall o :: o in idx[..i] + [v] + idx[i..] <==> o in idx || o == v
  {
    assert idx == idx[..i] + idx[i..];
  }

  /** An index stays ascending when every entry keeps its key under a new keying. */
  lemma AscendingRekeyed(idx: seq<nat>, k1: Keying, k2: Keying)
    requires Ascending(idx, k1)
    requires forall o :: o in idx ==> Key(k2, o) == Key(k1, o)
    ensures Ascending(idx, k2)
  {
    forall i, j | 0 <= i < j < |idx| ensures LexLess(Key(k2, idx[i]), Key(k2, idx[j])) {
      assert idx[i] in idx && idx[j] in idx;
    }
  }

  /** Inserting v at a split point whose neighbours bracket its key keeps the index ascending. */
  lemma InsertKeepsAscending(idx: seq<nat>, k: Keying, i: nat, v: nat)
    requires Ascending(idx, k) && i <= |idx|
    requires forall j :: 0 <= j < i ==> LexLess(Key(k, idx[j]), Key(k, v))
    requires i < |idx| ==> LexLess(Key(k, v), Key(k, idx[i]))
    ensures Ascending(idx[..i] + [v] + idx[i..], k)
  {
    forall j | i < j < |idx| ensures LexLess(Key(k, v), Key(k, idx[j])) {
      LexTransitive(Key(k, v), Key(k, idx[i]), Key(k, idx[j]));
    }
    var r := idx[..i] + [v] + idx[i..];
    forall a, b | 0 <= a < b < |r| ensures LexLess(Key(k, r[a]), Key(k, r[b])) {
      if a < i && b > i {
        LexTransitive(Key(k, idx[a]), Key(k, v), Key(k, idx[b - 1]));
      }
    }
  }

  /**
   * `std::set::insert(v)` (through std::inserter, as `load` fills its sets):
   * v goes in before the first entry whose key is not below its own, unless
   * that entry's key equals v's.
   */
  function Insert(idx: seq<nat>, k: Keying, v: nat): seq<nat>
  {
    if idx == [] then [v]
    else if LexLess(Key(k, idx[0]), Key(k, v)) then [idx[0]] + Insert(idx[1..], k, v)
    else if LexLess(Key(k, v), Key(k, idx[0])) then [v] + idx
    else idx
  }

  /** An ascending index minus its first entry, whose key is below all the others. */
  lemma AscendingTail(idx: seq<nat>, k: Keying)
    requires Ascending(idx, k) && idx != []
    ensures Ascending(idx[1..], k)
    ensures forall o :: o in idx[1..] ==> LexLess(Key(k, idx[0]), Key(k, o))
  {
    forall o | o in idx[1..] ensures LexLess(Key(k, idx[0]), Key(k, o)) {
      var j :| 0 <= j < |idx[1..]| && idx[1..][j] == o;
      assert idx[j + 1] == o;
    }
  }

  /** An entry whose key is below every key of an ascending index can lead it. */
  lemma AscendingCons(x: nat, r: seq<nat>, k: Keying)
    requires Ascending(r, k)
    requires forall o :: o in r ==> LexLess(Key(k, x), Key(k, o))
    ensures Ascending([x] + r, k)
  {
    var s := [x] + r;
    forall i, j | 0 <= i < j < |s| ensures LexLess(Key(k, s[i]), Key(k, s[j])) {
      assert s[j] == r[j - 1] && r[j - 1] in r;
      if i > 0 {
        assert s[i] == r[i - 1];
      }
    }
  }

  /** What `Insert` does: nothing when the key is present, else add exactly v, keeping the order. */
  lemma {:induction false} InsertCases(idx: seq<nat>, k: Keying, v: nat)
    requires Ascending(idx, k)
    ensures Ascending(Insert(idx, k, v), k)
    ensures forall o :: o in Insert(idx, k, v) ==> o in idx || o == v
    ensures (exists o :: o in idx && Key(k, o) == Key(k, v)) ==> Insert(idx, k, v) == idx
    ensures (forall o :: o in idx ==> Key(k, o) != Key(k, v)) ==>
              |Insert(idx, k, v)| == |idx| + 1 && forall o :: o in Insert(idx, k, v) <==> o in idx || o == v
    decreases |idx|
  {
    if idx != [] {
      var a, tail := idx[0], idx[1..];
      assert idx == [a] + tail;
      AscendingTail(idx, k);
      if LexLess(Key(k, a), Key(k, v)) {
        InsertCases(tail, k, v);
        InsertAdds(tail, k, v);
        var r := Insert(tail, k, v);
        forall o | o in r ensures LexLess(Key(k, a), Key(k, o)) {
          assert o in tail || o == v;
        }
        AscendingCons(a, r, k);
        LexIrreflexive(Key(k, v));
        assert forall o :: o in idx && Key(k, o) == Key(k, v) ==> o in tail;
      } else if LexLess(Key(k, v), Key(k, a)) {
        forall o | o in idx ensures LexLess(Key(k, v), Key(k, o)) {
          if o != a {
            LexTransitive(Key(k, v), Key(k, a), Key(k, o));
          }
        }
        AscendingCons(v, idx, k);
        LexIrreflexive(Key(k, v));
      } else {
        LexEquivalentIsEqual(Key(k, v), Key(k, a));
      }
    }
  }

  /** `Insert` keeps an ascending index ascending. */
  lemma InsertKeepsOrder(idx: seq<nat>, k: Keying, v: nat)
    requires Ascending(idx, k)
    ensures Ascending(Insert(idx, k, v), k)
  {
    InsertCases(idx, k, v);
  }

  /** `Insert` adds nothing but v, whatever the order of the index. */
  lemma {:induction false} InsertAdds(idx: seq<nat>, k: Keying, v: nat)
    ensures forall o :: o in Insert(idx, k, v) ==> o in idx || o == v
    decreases |idx|
  {
    if idx != [] && LexLess(Key(k, idx[0]), Key(k, v)) {
      InsertAdds(idx[1..], k, v);
      assert idx == [idx[0]] + idx[1..];
    }
  }

  /** Every prefix of an ascending index is ascending. */
  lemma AscendingPrefix(idx: seq<nat>, k: Keying, j: nat)
    requires Ascending(idx, k) && j <= |idx|
    ensures Ascending(idx[..j], k)
  {
  }

  /** The first entry of the upper part of an ascending index can join the lower part. */
  lemma AscendingNext(pre: seq<nat>, vs: seq<nat>, k: Keying)
    requires Ascending(pre + vs, k) && vs != []
    ensures Ascending(pre + [vs[0]], k)
    ensures (pre + [vs[0]]) + vs[1..] == pre + vs
  {
    AscendingPrefix(pre + vs, k, |pre| + 1);
    assert (pre + vs)[..|pre| + 1] == pre + [vs[0]];
  }

  /** Inserting an offset whose key is above every key present appends it. */
  lemma {:induction false} InsertAbove(idx: seq<nat>, k: Keying, v: nat)
    requires Ascending(idx + [v], k)
    ensures Ascending(idx, k)
    ensures Insert(idx, k, v) == idx + [v]
    decreases |idx|
  {
    AscendingPrefix(idx + [v], k, |idx|);
    assert (idx + [v])[..|idx|] == idx;
    if idx != [] {
      assert (idx + [v])[0] == idx[0] && (idx + [v])[|idx|] == v;
      AscendingTail(idx + [v], k);
      assert (idx + [v])[1..] == idx[1..] + [v];
      InsertAbove(idx[1..], k, v);
      assert [idx[0]] + (idx[1..] + [v]) == idx + [v];
    }
  }

  // ---------------------------------------------------------------------
  // Ascending enumeration of a set of numbers (std::map iteration order)
  // ---------------------------------------------------------------------

  predicate IsLeast(m: nat, s: set<nat>)
  {
    m in s && forall y :: y in s ==> m <= y
  }

  lemma LeastOf(s: set<nat>) returns (m: nat)
    requires s != {}
    ensures IsLeast(m, s)
    decreases |s|
  {
    var x :| x in s;
    if s == {x} {
      m := x;
    } else {
      var rest := s - {x};
      var r := LeastOf(rest);
      m := if x < r then x else r;
      forall y | y in s ensures m <= y {
        if y != x {
          assert y in rest;
        }
      }
    }
  }

  lemma HasLeast(s: set<nat>)
    requires s != {}
    ensures exists m :: IsLeast(m, s)
  {
    var m := LeastOf(s);
  }

  ghost predicate Increasing(s: seq<nat>)
  {
    forall i, j :: 0 <= i < j < |s| ==> s[i] < s[j]
  }

  /** The keys of a std::map in its iteration order: ascending. */
  function InOrder(s: set<nat>): (r: seq<nat>)
    ensures |r| == |s| && Increasing(r)
    ensures forall x :: x in r <==> x in s
    decreases s
  {
    if s == {} then []
    else
      HasLeast(s);
      var m :| IsLeast(m, s);
      var rest := InOrder(s - {m});
      assert forall x :: x in rest ==> m < x;
      [m] + rest
  }

  /** `std::map::lower_bound(r)` on a map with these keys: the least key not below r. */
  ghost function LeastAtLeast(keys: set<nat>, r: nat): (k: nat)
    requires exists j :: j in keys && r <= j
    ensures k in keys && r <= k
    ensures forall j :: j in keys && r <= j ==> k <= j
  {
    var above := set j | j in keys && r <= j;
    var some :| some in keys && r <= some;
    assert some in above;
    HasLeast(above);
    var m :| IsLeast(m, above);
    assert forall j :: j in keys && r <= j ==> j in above;
    m
  }
}
