/**
 * Word-index extraction of the integer-to-mnemonic display tool
 * (`fishfood.py`): a public key is cut into 12-bit fields, each the index of
 * one dictionary word.
 */
module Mnemonic {
  import opened Bits

  /** Bits of the key consumed per dictionary word. */
  const DICT_WIDTH: nat := 12

  /** `2 ** DICT_WIDTH - 1`: the mask that selects one word index. */
  const DICT_MASK: nat := Pow2(DICT_WIDTH) - 1

  /** The constants written out: a word index is one of `4096`. */
  lemma DictConstants()
    ensures DICT_WIDTH == 12 && Pow2(DICT_WIDTH) == 4096 && DICT_MASK == 4095
  {
  }

  /**
   * `get_index(pubkey, offset)`: mask the `offset`-th 12-bit field of the key
   * in place and shift it down.  A negative offset would be a negative shift
   * count, which Python rejects; the offset is a natural number here.
   */
  function GetIndex(pubkey: nat, offset: nat := 0): (r: nat)
    ensures r <= DICT_MASK
    ensures r == pubkey / Pow2(12 * offset) % 4096
  {
    DictConstants();
    MaskedField(pubkey, DICT_WIDTH, offset * DICT_WIDTH);
    ShiftRight(And(pubkey, ShiftLeft(DICT_MASK, offset * DICT_WIDTH)), offset * DICT_WIDTH)
  }

  /** With the default offset the index is the key's low 12 bits. */
  lemma DefaultOffsetIsLowBits(pubkey: nat)
    ensures GetIndex(pubkey) == pubkey % 4096
  {
  }

  /** Moving one word up the key: the index at `offset > 0` of `p` is the index at `offset - 1` of `p / 4096`. */
  lemma GetIndexNext(p: nat, offset: nat)
    requires offset > 0
    ensures GetIndex(p, offset) == GetIndex(p / 4096, offset - 1)
  {
    var s := 12 * (offset - 1);
    assert 12 * offset == 12 + s;
    assert p / Pow2(12 + s) == p / 4096 / Pow2(s) by {
      DictConstants();
      Pow2Add(12, s);
      DivModNested(p, 4096, Pow2(s));
    }
  }

  /**
   * Bits outside the field do not matter: a key assembled from any high bits
   * `hi`, a word index `f` at `offset` and any low bits `lo` yields `f`.
   */
  lemma OnlyFieldMatters(hi: nat, f: nat, lo: nat, offset: nat)
    requires f <= DICT_MASK && lo < Pow2(12 * offset)
    ensures GetIndex(hi * Pow2(12 * (offset + 1)) + f * Pow2(12 * offset) + lo, offset) == f
  {
    DictConstants();
    assert 12 * (offset + 1) == 12 * offset + 12;
    FieldOf(hi, f, lo, 12 * offset, 12);
  }

  /** The key assembled little-endian from word indices: `ws[0] + ws[1] * 4096 + ...`. */
  function Compose(ws: seq<nat>): nat
  {
    if ws == [] then 0 else ws[0] + 4096 * Compose(ws[1..])
  }

  /** The first `m` word indices of `p`, at offsets `0 .. m - 1`. */
  function Words(p: nat, m: nat): seq<nat>
  {
    seq(m, i requires 0 <= i < m => GetIndex(p, i))
  }

  /** Reading the words back out of a composed key gives the words. */
  lemma {:induction false} WordsOfCompose(ws: seq<nat>)
    requires forall i :: 0 <= i < |ws| ==> ws[i] <= DICT_MASK
    ensures Words(Compose(ws), |ws|) == ws
  {
    if ws != [] {
      DictConstants();
      var x, y := Compose(ws), Compose(ws[1..]);
      DivModUnique(x, 4096, y, ws[0]);
      WordsOfCompose(ws[1..]);
      forall i | 0 <= i < |ws|
        ensures GetIndex(x, i) == ws[i]
      {
        if i > 0 {
          GetIndexNext(x, i);
          assert GetIndex(y, i - 1) == Words(y, |ws| - 1)[i - 1];
        }
      }
    }
  }

  /** The words of `p` are its low word followed by the words of `p / 4096`. */
  lemma WordsStep(p: nat, m: nat)
    requires m > 0
    ensures Words(p, m) == [p % 4096] + Words(p / 4096, m - 1)
  {
    forall i | 0 <= i < m
      ensures Words(p, m)[i] == ([p % 4096] + Words(p / 4096, m - 1))[i]
    {
      if i == 0 {
        DefaultOffsetIsLowBits(p);
      } else {
        GetIndexNext(p, i);
      }
    }
  }

  /**
   * Summing the first `m` word indices, each at its place, rebuilds any key
   * below `2 ** (12 * m)`.
   */
  lemma {:induction false} ComposeOfWords(p: nat, m: nat)
    requires p < Pow2(12 * m)
    ensures Compose(Words(p, m)) == p
  {
    if m == 0 {
      assert Words(p, m) == [];
    } else {
      var rest := p / 4096;
      assert rest < Pow2(12 * (m - 1)) by {
        DictConstants();
        assert 12 * m == 12 + 12 * (m - 1);
        DivBelow(p, 12, 12 * (m - 1));
      }
      WordsStep(p, m);
      assert ([p % 4096] + Words(rest, m - 1))[1..] == Words(rest, m - 1);
      ComposeOfWords(rest, m - 1);
    }
  }

  /**
   * The three look-ups of the display tool, at offsets 0, 1 and 2, read three
   * disjoint fields of the key: whatever the bits `hi` above them hold, each
   * look-up returns its own word index.
   */
  lemma ThreeLookupsDisjoint(a: nat, b: nat, c: nat, hi: nat)
    requires a <= DICT_MASK && b <= DICT_MASK && c <= DICT_MASK
    ensures GetIndex(Compose([a, b, c, hi])) == a
    ensures GetIndex(Compose([a, b, c, hi]), 1) == b
    ensures GetIndex(Compose([a, b, c, hi]), 2) == c
  {
    DictConstants();
    var p := Compose([a, b, c, hi]);
    var p1 := Compose([b, c, hi]);
    var p2 := Compose([c, hi]);
    assert [a, b, c, hi][1..] == [b, c, hi] && [b, c, hi][1..] == [c, hi];
    DivModUnique(p, 4096, p1, a);
    DivModUnique(p1, 4096, p2, b);
    DivModUnique(p2, 4096, Compose([hi]), c);
    GetIndexNext(p, 1);
    GetIndexNext(p, 2);
    GetIndexNext(p1, 1);
  }
}
