/**
 * The two left joins of the report (app.py:163-172): `pd.merge(left, right, on='id_key',
 * how='left')`. Each left row is followed, in left order, by one output row per right row
 * whose key equals its own (in right order), or by one row padded with missing cells when
 * there is none. Keys are compared as cells, so a missing key equals a missing key: pandas
 * pairs NaN keys with each other, which matters because line 140 can make every
 * transaction key missing.
 */
module Join {
  import opened Cells

  /** A row of a merge's right frame: its `id_key` cell and the cells of the columns it brings in. */
  datatype KeyedRow = KeyedRow(key: Cell, cells: seq<Cell>)

  /** `n` missing cells: the padding of a left row that found no partner. */
  function Nulls(n: nat): (r: seq<Cell>)
    ensures |r| == n && forall i :: 0 <= i < n ==> r[i] == Null
  {
    seq(n, _ => Null)
  }

  /** The keys of the right rows, in order. */
  function Keys(right: seq<KeyedRow>): (ks: seq<Cell>)
    ensures |ks| == |right| && forall i :: 0 <= i < |right| ==> ks[i] == right[i].key
  {
    seq(|right|, i requires 0 <= i < |right| => right[i].key)
  }

  /** The cells of the right rows whose key is `k`, in right order. */
  function Matches(right: seq<KeyedRow>, k: Cell): seq<seq<Cell>>
  {
    if right == [] then []
    else
      var last := right[|right| - 1];
      Matches(right[..|right| - 1], k) + (if last.key == k then [last.cells] else [])
  }

  /** The partners among one more right row. */
  lemma MatchesSnoc(front: seq<KeyedRow>, last: KeyedRow, k: Cell)
    ensures Matches(front + [last], k) == Matches(front, k) + (if last.key == k then [last.cells] else [])
    ensures Keys(front + [last]) == Keys(front) + [last.key]
  {
    assert (front + [last])[..|front|] == front;
  }

  /** A key has as many partners as it occurs among the right keys. */
  lemma {:induction false} MatchesCount(right: seq<KeyedRow>, k: Cell)
    ensures |Matches(right, k)| == multiset(Keys(right))[k]
  {
    if right != [] {
      var front, last := right[..|right| - 1], right[|right| - 1];
      assert right == front + [last];
      MatchesSnoc(front, last, k);
      MatchesCount(front, k);
    }
  }

  /** Every partner of a key comes from a right row with that key. */
  lemma {:induction false} MatchesSound(right: seq<KeyedRow>, k: Cell)
    ensures forall c :: c in Matches(right, k) ==> KeyedRow(k, c) in right
  {
    if right != [] {
      var front, last := right[..|right| - 1], right[|right| - 1];
      assert right == front + [last];
      MatchesSnoc(front, last, k);
      MatchesSound(front, k);
      forall c | c in Matches(right, k) ensures KeyedRow(k, c) in right {
        if c in Matches(front, k) {
          assert KeyedRow(k, c) in front;
        }
      }
    }
  }

  /** No right row with the key is missed. */
  lemma {:induction false} MatchesComplete(right: seq<KeyedRow>, k: Cell)
    ensures forall r :: r in right && r.key == k ==> r.cells in Matches(right, k)
  {
    if right != [] {
      var front, last := right[..|right| - 1], right[|right| - 1];
      assert right == front + [last];
      MatchesSnoc(front, last, k);
      MatchesComplete(front, k);
      forall r | r in right && r.key == k ensures r.cells in Matches(right, k) {
        if r in front {
          assert r.cells in Matches(front, k);
        } else {
          assert r == last;
        }
      }
    }
  }

  /**
   * The partners of a key are exactly the right rows with that key: as many cells as the key
   * occurs among the right keys, each from a right row with that key, and none missed.
   */
  lemma MatchesArePartners(right: seq<KeyedRow>, k: Cell)
    ensures |Matches(right, k)| == multiset(Keys(right))[k]
    ensures forall c :: c in Matches(right, k) ==> KeyedRow(k, c) in right
    ensures forall r :: r in right && r.key == k ==> r.cells in Matches(right, k)
  {
    MatchesCount(right, k);
    MatchesSound(right, k);
    MatchesComplete(right, k);
  }

  /** The output rows one left row yields, given the cells of its partners. */
  function Fan(row: seq<Cell>, m: seq<seq<Cell>>, width: nat): (r: seq<seq<Cell>>)
    ensures |r| == if m == [] then 1 else |m|
    ensures m == [] ==> r == [row + Nulls(width)]
    ensures forall j :: 0 <= j < |m| ==> r[j] == row + m[j]
  {
    if m == [] then [row + Nulls(width)]
    else seq(|m|, j requires 0 <= j < |m| => row + m[j])
  }

  /**
   * The key of a left row: its cell at column `keyAt`. Every row the report joins holds that
   * column; the missing marker for a shorter row only keeps the function total.
   */
  function KeyOf(row: seq<Cell>, keyAt: nat): Cell
  {
    if keyAt < |row| then row[keyAt] else Null
  }

  /** `pd.merge(left, right, on=key, how='left')` on the rows, with the key at column `keyAt` of the left rows. */
  function LeftJoin(left: seq<seq<Cell>>, keyAt: nat, right: seq<KeyedRow>, width: nat): seq<seq<Cell>>
  {
    if left == [] then []
    else
      var row := left[|left| - 1];
      LeftJoin(left[..|left| - 1], keyAt, right, width) + Fan(row, Matches(right, KeyOf(row, keyAt)), width)
  }

  /** How many output rows a left row yields: max(1, k) for its k partners. */
  function Multiplicity(right: seq<KeyedRow>, k: Cell): (n: nat)
    ensures n >= 1
  {
    var count := multiset(Keys(right))[k];
    if count == 0 then 1 else count
  }

  /** The expected size of a left join: the sum over left rows of their multiplicities. */
  function JoinSize(left: seq<seq<Cell>>, keyAt: nat, right: seq<KeyedRow>): nat
  {
    if left == [] then 0
    else JoinSize(left[..|left| - 1], keyAt, right) + Multiplicity(right, KeyOf(left[|left| - 1], keyAt))
  }

  /** Every left row appears max(1, k) times: the join has the expected size. */
  lemma {:induction false} LeftJoinSize(left: seq<seq<Cell>>, keyAt: nat, right: seq<KeyedRow>, width: nat)
    ensures |LeftJoin(left, keyAt, right, width)| == JoinSize(left, keyAt, right)
  {
    if left != [] {
      LeftJoinSize(left[..|left| - 1], keyAt, right, width);
      MatchesArePartners(right, KeyOf(left[|left| - 1], keyAt));
    }
  }

  /** Every output row is a left row of `n` cells followed by `width` cells, when every partner has `width` cells. */
  lemma {:induction false} LeftJoinWidth(left: seq<seq<Cell>>, keyAt: nat, right: seq<KeyedRow>, width: nat, n: nat)
    requires forall i :: 0 <= i < |left| ==> |left[i]| == n
    requires forall r :: r in right ==> |r.cells| == width
    ensures forall j :: 0 <= j < |LeftJoin(left, keyAt, right, width)| ==> |LeftJoin(left, keyAt, right, width)[j]| == n + width
  {
    if left != [] {
      var row := left[|left| - 1];
      var m := Matches(right, KeyOf(row, keyAt));
      LeftJoinWidth(left[..|left| - 1], keyAt, right, width, n);
      MatchesSound(right, KeyOf(row, keyAt));
      forall j | 0 <= j < |m| ensures |m[j]| == width {
        assert KeyedRow(KeyOf(row, keyAt), m[j]) in right;
      }
    }
  }

  /** The rows a left row yields keep its key. */
  lemma FanKeys(row: seq<Cell>, m: seq<seq<Cell>>, width: nat, keyAt: nat)
    requires keyAt < |row|
    ensures forall j :: 0 <= j < |Fan(row, m, width)| ==> KeyOf(Fan(row, m, width)[j], keyAt) == row[keyAt]
  {
  }

  /** Left rows that share one key each yield that key's multiplicity. */
  lemma {:induction false} SameKeyJoinSize(rows: seq<seq<Cell>>, keyAt: nat, right: seq<KeyedRow>, k: Cell)
    requires forall j :: 0 <= j < |rows| ==> KeyOf(rows[j], keyAt) == k
    ensures JoinSize(rows, keyAt, right) == |rows| * Multiplicity(right, k)
  {
    if rows != [] {
      SameKeyJoinSize(rows[..|rows| - 1], keyAt, right, k);
    }
  }

  /** The expected size of two left joins in a row on the same key: the sum over left keys of the product of their multiplicities. */
  function PairSize(keys: seq<Cell>, first: seq<KeyedRow>, second: seq<KeyedRow>): nat
  {
    if keys == [] then 0
    else
      var k := keys[|keys| - 1];
      PairSize(keys[..|keys| - 1], first, second) + Multiplicity(first, k) * Multiplicity(second, k)
  }

  /** The keys of the left rows, in order. */
  function LeftKeys(left: seq<seq<Cell>>, keyAt: nat): (ks: seq<Cell>)
    ensures |ks| == |left| && forall i :: 0 <= i < |left| ==> ks[i] == KeyOf(left[i], keyAt)
  {
    seq(|left|, i requires 0 <= i < |left| => KeyOf(left[i], keyAt))
  }

  /**
   * Joining twice on the same key: a left row with r partners in the first right side and t
   * in the second appears max(1, r) * max(1, t) times.
   */
  lemma {:induction false} JoinTwiceSize(left: seq<seq<Cell>>, keyAt: nat, first: seq<KeyedRow>, w1: nat, second: seq<KeyedRow>, w2: nat)
    requires forall i :: 0 <= i < |left| ==> keyAt < |left[i]|
    ensures |LeftJoin(LeftJoin(left, keyAt, first, w1), keyAt, second, w2)| == PairSize(LeftKeys(left, keyAt), first, second)
  {
    if left != [] {
      var front, row := left[..|left| - 1], left[|left| - 1];
      var k := KeyOf(row, keyAt);
      var fan := Fan(row, Matches(first, k), w1);
      assert LeftKeys(left, keyAt)[..|left| - 1] == LeftKeys(front, keyAt);
      JoinTwiceSize(front, keyAt, first, w1, second, w2);
      LeftJoinAppend(LeftJoin(front, keyAt, first, w1), fan, keyAt, second, w2);
      LeftJoinSize(fan, keyAt, second, w2);
      FanKeys(row, Matches(first, k), w1, keyAt);
      SameKeyJoinSize(fan, keyAt, second, k);
      MatchesCount(first, k);
    }
  }

  /** Concatenation is associative (stated once, so that joins need not prove it by extensionality). */
  lemma Assoc<T>(x: seq<T>, y: seq<T>, z: seq<T>)
    ensures (x + y) + z == x + (y + z)
  {
  }

  /** Joining one more left row appends what that row yields. */
  lemma LeftJoinSnoc(left: seq<seq<Cell>>, row: seq<Cell>, keyAt: nat, right: seq<KeyedRow>, width: nat)
    ensures LeftJoin(left + [row], keyAt, right, width)
         == LeftJoin(left, keyAt, right, width) + Fan(row, Matches(right, KeyOf(row, keyAt)), width)
  {
    assert (left + [row])[..|left|] == left;
  }

  /** The join keeps left order: joining two blocks of left rows is joining each and concatenating. */
  lemma {:induction false} LeftJoinAppend(a: seq<seq<Cell>>, b: seq<seq<Cell>>, keyAt: nat, right: seq<KeyedRow>, width: nat)
    ensures LeftJoin(a + b, keyAt, right, width) == LeftJoin(a, keyAt, right, width) + LeftJoin(b, keyAt, right, width)
  {
    if b == [] {
      assert a + b == a;
    } else {
      var b', row := b[..|b| - 1], b[|b| - 1];
      assert b == b' + [row];
      assert a + b == (a + b') + [row];
      LeftJoinSnoc(a + b', row, keyAt, right, width);
      LeftJoinSnoc(b', row, keyAt, right, width);
      LeftJoinAppend(a, b', keyAt, right, width);
      Assoc(LeftJoin(a, keyAt, right, width), LeftJoin(b', keyAt, right, width),
            Fan(row, Matches(right, KeyOf(row, keyAt)), width));
    }
  }

  /**
   * What a single left row yields: rows that start with it, one per partner in right order,
   * or the row padded with `width` missing cells when it has none.
   */
  lemma OneRowJoin(row: seq<Cell>, keyAt: nat, right: seq<KeyedRow>, width: nat)
    ensures |LeftJoin([row], keyAt, right, width)| == Multiplicity(right, KeyOf(row, keyAt))
    ensures multiset(Keys(right))[KeyOf(row, keyAt)] == 0 ==> LeftJoin([row], keyAt, right, width) == [row + Nulls(width)]
    ensures multiset(Keys(right))[KeyOf(row, keyAt)] > 0 ==>
      forall o :: o in LeftJoin([row], keyAt, right, width) ==>
        exists r :: r in right && r.key == KeyOf(row, keyAt) && o == row + r.cells
    ensures forall r :: r in right && r.key == KeyOf(row, keyAt) ==> row + r.cells in LeftJoin([row], keyAt, right, width)
  {
    var m := Matches(right, KeyOf(row, keyAt));
    MatchesArePartners(right, KeyOf(row, keyAt));
    var out := LeftJoin([row], keyAt, right, width);
    assert [row][..0] == [] && [row][0] == row;
    assert out == LeftJoin([], keyAt, right, width) + Fan(row, m, width);
    assert out == Fan(row, m, width);
    if m != [] {
      forall o | o in out
        ensures exists r :: r in right && r.key == KeyOf(row, keyAt) && o == row + r.cells
      {
        var j :| 0 <= j < |out| && out[j] == o;
        assert m[j] in m;
        assert KeyedRow(KeyOf(row, keyAt), m[j]) in right;
      }
    }
    forall r | r in right && r.key == KeyOf(row, keyAt)
      ensures row + r.cells in out
    {
      assert r.cells in m;
      var j :| 0 <= j < |m| && m[j] == r.cells;
      assert out[j] == row + r.cells;
    }
  }

  /**
   * Missing keys meet each other: a left row whose key is missing is paired with every
   * right row whose key is missing.
   */
  lemma MissingKeysMeet(row: seq<Cell>, keyAt: nat, right: seq<KeyedRow>, width: nat)
    requires KeyOf(row, keyAt) == Null
    ensures forall r :: r in right && r.key == Null ==> row + r.cells in LeftJoin([row], keyAt, right, width)
  {
    OneRowJoin(row, keyAt, right, width);
  }

  /**
   * When every right key is missing (the transactions carry no 'Id Reserva' column, line 140),
   * a left row with a key gets one padded row, and a left row without one gets a row for
   * every right row.
   */
  lemma AllKeysMissing(row: seq<Cell>, keyAt: nat, right: seq<KeyedRow>, width: nat)
    requires forall r :: r in right ==> r.key == Null
    ensures KeyOf(row, keyAt) != Null ==> LeftJoin([row], keyAt, right, width) == [row + Nulls(width)]
    ensures KeyOf(row, keyAt) == Null && right != [] ==> |LeftJoin([row], keyAt, right, width)| == |right|
  {
    OneRowJoin(row, keyAt, right, width);
    var ks := Keys(right);
    if KeyOf(row, keyAt) != Null {
      assert KeyOf(row, keyAt) !in ks;
    } else {
      assert forall k :: k in multiset(ks) ==> k == Null;
      assert multiset(ks)[Null] == |ks| by {
        AllSameCount(ks, Null);
      }
    }
  }

  /** A sequence of equal values holds that value as often as it is long. */
  lemma {:induction false} AllSameCount(ks: seq<Cell>, k: Cell)
    requires forall i :: 0 <= i < |ks| ==> ks[i] == k
    ensures multiset(ks)[k] == |ks|
  {
    if ks != [] {
      var front := ks[..|ks| - 1];
      assert ks == front + [ks[|ks| - 1]];
      AllSameCount(front, k);
    }
  }

  /** Scanning one more right row extends the partners found so far. */
  lemma MatchesStep(right: seq<KeyedRow>, j: nat, k: Cell)
    requires j < |right|
    ensures Matches(right[..j + 1], k) == Matches(right[..j], k) + (if right[j].key == k then [right[j].cells] else [])
  {
    assert right[..j + 1][..j] == right[..j];
  }

  /** Joining one more left row appends what that row yields. */
  lemma LeftJoinStep(left: seq<seq<Cell>>, i: nat, keyAt: nat, right: seq<KeyedRow>, width: nat)
    requires i < |left|
    ensures LeftJoin(left[..i + 1], keyAt, right, width)
         == LeftJoin(left[..i], keyAt, right, width) + Fan(left[i], Matches(right, KeyOf(left[i], keyAt)), width)
  {
    assert left[..i + 1][..i] == left[..i];
  }

  /**
   * The merge as the library runs it: for each left row in turn, scan the right rows for
   * its partners, then emit one row per partner or one padded row.
   */
  method MergeLeft(left: seq<seq<Cell>>, keyAt: nat, right: seq<KeyedRow>, width: nat) returns (out: seq<seq<Cell>>)
    ensures out == LeftJoin(left, keyAt, right, width)
  {
    out := [];
    for i := 0 to |left|
      invariant out == LeftJoin(left[..i], keyAt, right, width)
    {
      var row := left[i];
      var m := [];
      for j := 0 to |right|
        invariant m == Matches(right[..j], KeyOf(row, keyAt))
      {
        MatchesStep(right, j, KeyOf(row, keyAt));
        if right[j].key == KeyOf(row, keyAt) {
          m := m + [right[j].cells];
        }
      }
      assert right[..|right|] == right;
      ghost var before := out;
      ghost var fan := Fan(row, m, width);
      if m == [] {
        out := out + [row + Nulls(width)];
      } else {
        for j := 0 to |m|
          invariant out == before + fan[..j]
        {
          assert fan[..j + 1] == fan[..j] + [row + m[j]];
          Assoc(before, fan[..j], [row + m[j]]);
          out := out + [row + m[j]];
        }
        assert fan[..|m|] == fan;
      }
      LeftJoinStep(left, i, keyAt, right, width);
    }
    assert left[..|left|] == left;
  }
}
