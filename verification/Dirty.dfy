/** The durable invalidation rows, one per (user, week): a generation, two consumers' completions and a mark time. */
module Dirty {
  import opened Orders
  import opened Calendar

  datatype Key = Key(user: nat, week: nat)

  datatype DirtyRow = DirtyRow(generation: nat, current: nat, projection: nat, markedAt: Instant)

  type DirtyTable = map<Key, DirtyRow>

  datatype Consumer = Current | Projection

  datatype Acknowledgement = Stale | Acknowledged | Deleted

  /** (user_id, window_start) in lexicographic order. */
  predicate KeyLe(a: Key, b: Key) { a.user < b.user || (a.user == b.user && a.week <= b.week) }

  /** mark_dirty: insert generation 1, or advance the generation and clear both completions. */
  function Mark(d: DirtyTable, k: Key, at: Instant): DirtyTable {
    d[k := DirtyRow(if k in d then d[k].generation + 1 else 1, 0, 0, at)]
  }

  function Complete(row: DirtyRow, consumer: Consumer): DirtyRow {
    match consumer
    case Current => row.(current := row.generation)
    case Projection => row.(projection := row.generation)
  }

  /** _acknowledge: complete one consumer if the generation still matches, then delete a fully completed row. */
  function Acknowledge(d: DirtyTable, consumer: Consumer, k: Key, generation: nat): (DirtyTable, Acknowledgement) {
    if k !in d || d[k].generation != generation then (d, Stale) else
      var row := Complete(d[k], consumer);
      if row.current == generation && row.projection == generation then (d - {k}, Deleted)
      else (d[k := row], Acknowledged)
  }

  predicate PendingFor(d: DirtyTable, consumer: Consumer, k: Key) {
    k in d && (match consumer case Current => d[k].current case Projection => d[k].projection) != d[k].generation
  }

  /** Each completion is 0 or the generation, and some consumer is still behind. */
  ghost predicate ValidRow(row: DirtyRow) {
    && row.generation > 0
    && (row.current == 0 || row.current == row.generation)
    && (row.projection == 0 || row.projection == row.generation)
    && !(row.current == row.generation && row.projection == row.generation)
  }

  ghost predicate ValidTable(d: DirtyTable) { forall k | k in d :: ValidRow(d[k]) }

  /** Marking leaves the key pending for both consumers and every other row alone. */
  lemma MarkPends(d: DirtyTable, k: Key, at: Instant)
    requires ValidTable(d)
    ensures ValidTable(Mark(d, k, at)) && k in Mark(d, k, at) && Mark(d, k, at)[k].markedAt == at
    ensures Mark(d, k, at)[k].generation == (if k in d then d[k].generation + 1 else 1)
    ensures forall c :: PendingFor(Mark(d, k, at), c, k)
    ensures Mark(d, k, at) - {k} == d - {k}
  {
  }

  function Other(c: Consumer): Consumer { if c == Current then Projection else Current }

  /** An acknowledgement takes effect exactly for the current generation, ends one consumer's work and not the other's,
      and removes the row exactly when the other consumer had finished the same generation. */
  lemma AcknowledgeEffect(d: DirtyTable, c: Consumer, k: Key, g: nat)
    requires ValidTable(d)
    ensures var (d', status) := Acknowledge(d, c, k, g);
      && ValidTable(d')
      && (status == Stale <==> !(k in d && d[k].generation == g))
      && (status == Stale ==> d' == d)
      && (status != Stale ==> !PendingFor(d', c, k))
      && (status == Deleted <==> k in d && k !in d')
      && (status == Deleted <==> k in d && d[k].generation == g && !PendingFor(d, Other(c), k))
      && PendingFor(d', Other(c), k) == PendingFor(d, Other(c), k)
      && (k in d && k in d' ==> d'[k].generation == d[k].generation && d'[k].markedAt == d[k].markedAt)
      && (forall j | j != k :: (j in d' <==> j in d) && (j in d ==> d'[j] == d[j]))
  {
  }

  // ---------------------------------------------------------------- oldest first

  datatype Marked = Marked(at: Instant, key: Key)

  /** ORDER BY last_marked_at ASC, user_id ASC, window_start ASC */
  predicate OlderLe(a: Marked, b: Marked) { a.at < b.at || (a.at == b.at && KeyLe(a.key, b.key)) }

  lemma OlderOrder()
    ensures TotalOrder(OlderLe)
  {
  }

  function MarkedRows(d: DirtyTable): set<Marked> { set k | k in d :: Marked(d[k].markedAt, k) }

  /** observe, before its LIMIT. */
  function OldestFirst(d: DirtyTable): (list: seq<Marked>)
    ensures Ascending(list, OlderLe) && |list| == |d|
    ensures forall m :: m in list <==> m.key in d && m.at == d[m.key].markedAt
  {
    OlderOrder();
    RowCount(d);
    Sort(MarkedRows(d), OlderLe)
  }

  lemma {:induction false} RowCount(d: DirtyTable)
    ensures |MarkedRows(d)| == |d|
  {
    if d == map[] {
      assert MarkedRows(d) == {};
    } else {
      var k :| k in d;
      RowCount(d - {k});
      assert MarkedRows(d) == MarkedRows(d - {k}) + {Marked(d[k].markedAt, k)};
      assert |d| == |d - {k}| + 1 by {
        assert d.Keys == (d - {k}).Keys + {k};
        assert |d| == |d.Keys| && |d - {k}| == |(d - {k}).Keys|;
      }
    }
  }
}
