/**
 The hash-chained audit log. The hash and the canonical encoding are parameters; what is needed of
 them is stated by `Sound`.
 */
module AuditChain {
  import opened Prelude

  /** The columns the hash covers. */
  datatype Fields = Fields(
    id: nat, timestamp: int, agent: string, email: string, action: string,
    tool: Option<string>, chain: Option<string>, details: Option<string>)

  datatype Row = Row(fields: Fields, prevHash: Option<string>, rowHash: Option<string>)

  datatype Crypto = Crypto(hash: string -> string, encode: Fields -> string)

  const GENESIS := "genesis"

  /** No hash collisions; the encoding is JSON text of an object, different for different rows; a hash, being
      hexadecimal digits, is not such a text and is not `genesis`. */
  ghost predicate Sound(c: Crypto) {
    && (forall a, b :: c.hash(a) == c.hash(b) ==> a == b)
    && (forall f, g :: c.encode(f) == c.encode(g) ==> f == g)
    && (forall f :: |c.encode(f)| > 0 && c.encode(f)[0] == '{')
    && (forall a :: '{' !in c.hash(a) && c.hash(a) != GENESIS)
  }

  function RowHash(c: Crypto, f: Fields, prev: string): string {
    c.hash(prev + c.encode(f))
  }

  predicate Before(a: Fields, b: Fields) {
    a.timestamp < b.timestamp || (a.timestamp == b.timestamp && a.id < b.id)
  }

  /** The hash of the hashed row that is last in (timestamp, id) order. */
  function LastRow(log: seq<Row>): Option<Row> {
    if log == [] then None
    else
      var best, r := LastRow(log[..|log| - 1]), log[|log| - 1];
      if r.rowHash.Some? && (best.None? || Before(best.value.fields, r.fields)) then Some(r) else best
  }

  function LastHash(log: seq<Row>): string {
    match LastRow(log)
    case None => GENESIS
    case Some(r) => if r.rowHash.Some? then r.rowHash.value else GENESIS
  }

  /** Of the hashed rows, the latest, by identifier among equal times. */
  lemma {:induction false} LastRowExactly(log: seq<Row>)
    ensures LastRow(log).None? <==> forall q <- log :: q.rowHash.None?
    ensures LastRow(log).Some? ==>
              var r := LastRow(log).value;
              && r in log && r.rowHash.Some?
              && forall q <- log :: q.rowHash.Some? ==>
                   q.fields.timestamp < r.fields.timestamp
                   || (q.fields.timestamp == r.fields.timestamp && q.fields.id <= r.fields.id)
  {
    if log != [] {
      LastRowExactly(log[..|log| - 1]);
      assert log == log[..|log| - 1] + [log[|log| - 1]];
    }
  }

  predicate HasId(log: seq<Row>, id: nat) {
    exists r <- log :: r.fields.id == id
  }

  /** The log after an insertion; the primary key refuses a used identifier. */
  function Insert(c: Crypto, log: seq<Row>, f: Fields): seq<Row> {
    if HasId(log, f.id) then log
    else var prev := LastHash(log); log + [Row(f, Some(prev), Some(RowHash(c, f, prev)))]
  }

  function InsertAll(c: Crypto, log: seq<Row>, entries: seq<Fields>): seq<Row> {
    if entries == [] then log
    else Insert(c, InsertAll(c, log, entries[..|entries| - 1]), entries[|entries| - 1])
  }

  /** A row recomputes to its own hash; rows from before the hashes pass. */
  predicate Consistent(c: Crypto, r: Row) {
    r.rowHash.Some? ==> RowHash(c, r.fields, if r.prevHash.Some? then r.prevHash.value else GENESIS) == r.rowHash.value
  }

  datatype Report = Valid(total: nat) | Broken(at: nat, total: nat)

  /** The walk over the ordered rows, up to the first that does not recompute. */
  function Walk(c: Crypto, sorted: seq<Row>, total: nat): Report {
    if sorted == [] then Valid(total)
    else if !Consistent(c, sorted[0]) then Broken(sorted[0].fields.id, total)
    else Walk(c, sorted[1..], total)
  }

  function Verdict(c: Crypto, log: seq<Row>): Report {
    Walk(c, Ordered(log), |log|)
  }

  // ---- The query's order

  function Place(r: Row, sorted: seq<Row>): seq<Row> {
    if sorted == [] then [r]
    else if Before(r.fields, sorted[0].fields) then [r] + sorted
    else [sorted[0]] + Place(r, sorted[1..])
  }

  /** ORDER BY timestamp, id. */
  function Ordered(log: seq<Row>): seq<Row> {
    if log == [] then [] else Place(log[|log| - 1], Ordered(log[..|log| - 1]))
  }

  lemma {:induction false} PlaceKeeps(r: Row, s: seq<Row>)
    ensures multiset(Place(r, s)) == multiset(s) + multiset{r}
  {
    if s != [] && !Before(r.fields, s[0].fields) {
      PlaceKeeps(r, s[1..]);
      assert s == [s[0]] + s[1..];
    }
  }

  lemma {:induction false} OrderedKeeps(log: seq<Row>)
    ensures multiset(Ordered(log)) == multiset(log)
  {
    if log != [] {
      OrderedKeeps(log[..|log| - 1]);
      PlaceKeeps(log[|log| - 1], Ordered(log[..|log| - 1]));
      assert log == log[..|log| - 1] + [log[|log| - 1]];
    }
  }

  predicate Ascending(s: seq<Row>) {
    forall i, j :: 0 <= i < j < |s| ==> !Before(s[j].fields, s[i].fields)
  }

  lemma {:induction false} PlaceSorts(r: Row, s: seq<Row>)
    requires Ascending(s)
    ensures Ascending(Place(r, s))
  {
    if s != [] && !Before(r.fields, s[0].fields) {
      PlaceSorts(r, s[1..]);
      var t := Place(r, s[1..]);
      forall x | x in t ensures !Before(x.fields, s[0].fields) {
        PlaceKeeps(r, s[1..]);
        assert x in multiset(t);
        if x in s[1..] { var i :| 0 <= i < |s[1..]| && s[1..][i] == x; assert s[i + 1] == x; }
      }
    } else {
      forall j | 0 <= j < |s| ensures !Before(s[j].fields, r.fields) {
        assert j > 0 ==> !Before(s[j].fields, s[0].fields);
      }
    }
  }

  lemma {:induction false} OrderedSorts(log: seq<Row>)
    ensures Ascending(Ordered(log))
  {
    if log != [] {
      OrderedSorts(log[..|log| - 1]);
      PlaceSorts(log[|log| - 1], Ordered(log[..|log| - 1]));
    }
  }

  lemma OrderedSameRows(log: seq<Row>, r: Row)
    ensures r in Ordered(log) <==> r in log
  {
    OrderedKeeps(log);
    assert r in multiset(Ordered(log)) <==> r in multiset(log);
  }

  class AuditLog {
    const crypto: Crypto
    var rows: seq<Row>

    constructor (crypto: Crypto)
      ensures this.crypto == crypto && rows == []
    {
      this.crypto, rows := crypto, [];
    }

    method GetLastAuditHash() returns (hash: string)
      ensures hash == LastHash(rows)
      ensures (forall r <- rows :: r.rowHash.None?) ==> hash == "genesis"
      ensures (exists r <- rows :: r.rowHash.Some?) ==>
                exists r <- rows :: r.rowHash == Some(hash)
                                    && forall q <- rows :: q.rowHash.Some? ==>
                                         q.fields.timestamp < r.fields.timestamp
                                         || (q.fields.timestamp == r.fields.timestamp && q.fields.id <= r.fields.id)
    {
      LastRowExactly(rows);
      var best: Option<Row> := None;
      for i := 0 to |rows|
        invariant best == LastRow(rows[..i])
      {
        assert rows[..i + 1][..i] == rows[..i];
        var r := rows[i];
        if r.rowHash.Some? && (best.None? || Before(best.value.fields, r.fields)) { best := Some(r); }
      }
      assert rows[..|rows|] == rows;
      hash := if best.Some? && best.value.rowHash.Some? then best.value.rowHash.value else GENESIS;
    }

    method InsertAuditLog(f: Fields) returns (ok: bool)
      modifies this
      ensures rows == Insert(crypto, old(rows), f) && (ok <==> forall r <- old(rows) :: r.fields.id != f.id)
      ensures ok ==> var prev := LastHash(old(rows));
                     rows == old(rows) + [Row(f, Some(prev), Some(crypto.hash(prev + crypto.encode(f))))]
      ensures !ok ==> rows == old(rows)
    {
      if exists r <- rows :: r.fields.id == f.id { return false; }
      var prev := GetLastAuditHash();
      rows := rows + [Row(f, Some(prev), Some(crypto.hash(prev + crypto.encode(f))))];
      return true;
    }

    /** Of the ordered rows, those before position `i` include everything earlier than row `i`. */
    lemma EarlierRowsFirst(sorted: seq<Row>, i: nat)
      requires sorted == Ordered(rows) && i < |sorted| && forall j :: 0 <= j < i ==> Consistent(crypto, sorted[j])
      ensures sorted[i] in rows
      ensures forall q <- rows :: Before(q.fields, sorted[i].fields) ==> Consistent(crypto, q)
    {
      hide Consistent, Ordered;
      OrderedSorts(rows);
      OrderedSameRows(rows, sorted[i]);
      forall q | q in rows && Before(q.fields, sorted[i].fields) ensures Consistent(crypto, q) {
        OrderedSameRows(rows, q);
        var j :| 0 <= j < |sorted| && sorted[j] == q;
        assert j < i;
      }
    }

    /** Each row is recomputed from its own stored predecessor hash; the walk stops at the first mismatch. */
    method VerifyAuditChain() returns (report: Report)
      ensures report == Verdict(crypto, rows) && report.total == |rows|
      ensures report.Valid? <==> forall r <- rows :: Consistent(crypto, r)
      ensures report.Valid? <==> forall r <- rows :: r.rowHash.Some? ==>
                var prev := if r.prevHash.Some? then r.prevHash.value else "genesis";
                r.rowHash.value == crypto.hash(prev + crypto.encode(r.fields))
      ensures report.Broken? ==>
                exists r :: r in rows && !Consistent(crypto, r) && r.fields.id == report.at
                            && forall q <- rows :: Before(q.fields, r.fields) ==> Consistent(crypto, q)
    {
      var sorted := Ordered(rows);
      assert forall r <- rows :: Consistent(crypto, r) <==> (r.rowHash.Some? ==>
          var prev := if r.prevHash.Some? then r.prevHash.value else "genesis";
          r.rowHash.value == crypto.hash(prev + crypto.encode(r.fields)));
      hide Ordered, Before, RowHash;
      forall r ensures r in sorted <==> r in rows { OrderedSameRows(rows, r); }
      OrderedKeeps(rows);
      assert |sorted| == |multiset(sorted)| == |multiset(rows)| == |rows|;
      for i := 0 to |sorted|
        invariant forall j :: 0 <= j < i ==> Consistent(crypto, sorted[j])
        invariant Walk(crypto, sorted, |sorted|) == Walk(crypto, sorted[i..], |sorted|)
      {
        var row := sorted[i];
        assert row in sorted && sorted[i..][0] == row && sorted[i..][1..] == sorted[i + 1..];
        if row.rowHash.Some? {
          var recomputed := RowHash(crypto, row.fields, if row.prevHash.Some? then row.prevHash.value else GENESIS);
          if recomputed != row.rowHash.value {
            EarlierRowsFirst(sorted, i);
            return Broken(row.fields.id, |sorted|);
          }
        }
      }
      return Valid(|sorted|);
    }
  }

  // ---- What the check establishes

  /** Every log built by insertions verifies. */
  lemma {:induction false} BuiltLogIsConsistent(c: Crypto, log: seq<Row>, entries: seq<Fields>)
    requires forall r <- log :: Consistent(c, r)
    ensures forall r <- InsertAll(c, log, entries) :: Consistent(c, r)
  {
    if entries != [] {
      BuiltLogIsConsistent(c, log, entries[..|entries| - 1]);
    }
  }

  predicate Increasing(entries: seq<Fields>) {
    && (forall i, j :: 0 <= i < j < |entries| ==> Before(entries[i], entries[j]))
    && (forall i, j :: 0 <= i < j < |entries| ==> entries[i].id != entries[j].id)
  }

  /** Row `i` names the hash of the row before it. */
  predicate LinkedAt(log: seq<Row>, i: nat)
    requires i < |log|
  {
    && log[i].rowHash.Some?
    && log[i].prevHash == if i == 0 then Some(GENESIS) else log[i - 1].rowHash
  }

  predicate Linked(log: seq<Row>) {
    forall i :: 0 <= i < |log| ==> LinkedAt(log, i)
  }

  /** Inserted in (timestamp, id) order, the rows form one list: each names its predecessor's hash. */
  lemma {:induction false} OrderedInsertsFormOneList(c: Crypto, entries: seq<Fields>)
    requires Increasing(entries)
    ensures var log := InsertAll(c, [], entries);
            && |log| == |entries| && (forall i :: 0 <= i < |log| ==> log[i].fields == entries[i])
            && Linked(log)
            && LastRow(log) == (if log == [] then None else Some(log[|log| - 1]))
  {
    hide Linked;
    if entries == [] {
      NothingLinked();
    } else {
      var init, f := entries[..|entries| - 1], entries[|entries| - 1];
      OrderedInsertsFormOneList(c, init);
      var before := InsertAll(c, [], init);
      assert !HasId(before, f.id) by {
        forall r | r in before ensures r.fields.id != f.id {
          var i :| 0 <= i < |before| && before[i] == r;
          assert r.fields == entries[i];
        }
      }
      var row := Row(f, Some(LastHash(before)), Some(RowHash(c, f, LastHash(before))));
      assert InsertAll(c, [], entries) == before + [row];
      assert before != [] ==> Before(before[|before| - 1].fields, f);
      LinkOneMore(before, row);
    }
  }

  // ---- Insertions out of order

  ghost predicate DistinctEntries(entries: seq<Fields>) {
    forall i, j :: 0 <= i < j < |entries| ==> entries[i].id != entries[j].id
  }

  /** A row of a built log, and what it was hashed onto: `genesis` or the hash of a row of the log. */
  ghost predicate Chained(c: Crypto, log: seq<Row>, r: Row) {
    && r.prevHash.Some? && '{' !in r.prevHash.value
    && r.rowHash == Some(RowHash(c, r.fields, r.prevHash.value))
    && (r.prevHash == Some(GENESIS) || exists q :: q in log && q.rowHash == r.prevHash)
  }

  /** The log of distinct entries: one row for each, chained. */
  lemma {:induction false} BuiltRows(c: Crypto, entries: seq<Fields>)
    requires Sound(c) && DistinctEntries(entries)
    ensures var log := InsertAll(c, [], entries);
            && |log| == |entries| && (forall i :: 0 <= i < |log| ==> log[i].fields == entries[i])
            && (forall r <- log :: Chained(c, log, r))
  {
    hide Chained, Consistent;
    if entries != [] {
      var init, f := entries[..|entries| - 1], entries[|entries| - 1];
      BuiltRows(c, init);
      var before := InsertAll(c, [], init);
      assert !HasId(before, f.id) by {
        forall r | r in before ensures r.fields.id != f.id {
          var i :| 0 <= i < |before| && before[i] == r;
          assert r.fields == entries[i];
        }
      }
      BuiltOneMore(c, before, f);
    }
  }

  lemma BuiltOneMore(c: Crypto, log: seq<Row>, f: Fields)
    requires Sound(c) && (forall r <- log :: Chained(c, log, r))
    ensures var row := Row(f, Some(LastHash(log)), Some(RowHash(c, f, LastHash(log))));
            forall r <- log + [row] :: Chained(c, log + [row], r)
  {
    var row := Row(f, Some(LastHash(log)), Some(RowHash(c, f, LastHash(log))));
    LastRowIsThere(log);
    assert '{' !in GENESIS;
    forall r | r in log + [row] ensures Chained(c, log + [row], r) {
      if r in log {
        assert Chained(c, log, r);
        if q :| q in log && q.rowHash == r.prevHash { assert q in log + [row]; }
      } else if LastRow(log).Some? {
        var q := LastRow(log).value;
        assert q in log && Chained(c, log, q) && q in log + [row];
      }
    }
  }

  lemma {:induction false} LastRowIsThere(log: seq<Row>)
    ensures LastRow(log).Some? ==> LastRow(log).value in log && LastRow(log).value.rowHash.Some?
  {
    if log != [] {
      LastRowIsThere(log[..|log| - 1]);
    }
  }

  /** Nothing in the log was hashed onto a row that is not in it. */
  lemma NobodyNamesIt(c: Crypto, log: seq<Row>, row: Row, r: Row)
    requires Sound(c) && (forall q <- log :: Chained(c, log, q)) && r in log
    requires row.prevHash.Some? && '{' !in row.prevHash.value
    requires row.rowHash == Some(RowHash(c, row.fields, row.prevHash.value)) && forall q <- log :: q.fields.id != row.fields.id
    ensures r.prevHash != row.rowHash
  {
    assert Chained(c, log, r);
    if r.prevHash == row.rowHash && r.prevHash != Some(GENESIS) {
      var q :| q in log && q.rowHash == r.prevHash;
      assert Chained(c, log, q);
      HashSeparates(c, q.prevHash.value, q.fields, row.prevHash.value, row.fields);
    }
  }

  lemma SplitFurther(s: seq<Row>, r: Row, q: nat)
    requires s != [] && q <= |s| - 1
    ensures [s[0]] + (s[1..][..q] + [r] + s[1..][q..]) == s[..q + 1] + [r] + s[q + 1..]
  {
    assert s[..q + 1] == [s[0]] + s[1..][..q] && s[q + 1..] == s[1..][q..];
  }

  /** Where the query puts a row: behind everything that does not come after it. */
  lemma {:induction false} PlaceAt(r: Row, s: seq<Row>) returns (p: nat)
    ensures p <= |s| && Place(r, s) == s[..p] + [r] + s[p..]
    ensures (p < |s| ==> Before(r.fields, s[p].fields)) && forall i :: 0 <= i < p ==> !Before(r.fields, s[i].fields)
  {
    hide Before;
    if s == [] || Before(r.fields, s[0].fields) {
      p := 0;
      assert s[..0] + [r] + s[0..] == [r] + s;
    } else {
      var rest := s[1..];
      assert Place(r, s) == [s[0]] + Place(r, rest);
      hide Place;
      var q := PlaceAt(r, rest);
      p := q + 1;
      SplitFurther(s, r, q);
      assert forall i :: 0 <= i < |rest| ==> rest[i] == s[i + 1];
    }
  }

  /** The links follow the walk's order exactly if the insertions came in that order: an insertion stamped earlier than
      one already logged is hashed onto a later row, and forks the list. */
  lemma {:induction false} LinkedExactlyInOrder(c: Crypto, entries: seq<Fields>)
    requires Sound(c) && DistinctEntries(entries)
    ensures Linked(Ordered(InsertAll(c, [], entries))) <==> Increasing(entries)
    ensures Increasing(entries) ==> Ordered(InsertAll(c, [], entries)) == InsertAll(c, [], entries)
  {
    hide Linked, Increasing, InsertAll, Ordered;
    if entries == [] {
      NothingInserted(c);
    } else {
      var init, f := entries[..|entries| - 1], entries[|entries| - 1];
      assert entries == init + [f];
      LinkedExactlyInOrder(c, init);
      var row := OneMoreInserted(c, init, f);
      if Increasing(init) { OrderedInsertsFormOneList(c, init); }
      var before := InsertAll(c, [], init);
      IncreasingSnoc(init, f, before);
      var sorted := Ordered(before);
      var p := PlaceAt(row, sorted);
      if p == |sorted| {
        assert sorted[..p] + [row] + sorted[p..] == sorted + [row];
        PlacedLast(c, before, sorted, row);
      } else {
        PlacedEarlier(c, before, sorted, row, p);
      }
    }
  }

  lemma NothingInserted(c: Crypto)
    ensures Linked(Ordered(InsertAll(c, [], []))) && Increasing([]) && Ordered(InsertAll(c, [], [])) == InsertAll(c, [], [])
  {
  }

  /** The row of the last entry, the rows before it, and their order. */
  lemma OneMoreInserted(c: Crypto, init: seq<Fields>, f: Fields) returns (row: Row)
    requires Sound(c) && DistinctEntries(init + [f])
    ensures DistinctEntries(init)
    ensures var before := InsertAll(c, [], init);
            && InsertAll(c, [], init + [f]) == before + [row] && Ordered(before + [row]) == Place(row, Ordered(before))
            && row == Row(f, Some(LastHash(before)), Some(RowHash(c, f, LastHash(before)))) && '{' !in row.prevHash.value
            && |before| == |init| && (forall i :: 0 <= i < |before| ==> before[i].fields == init[i])
            && (forall r <- before :: Chained(c, before, r) && r.fields.id != f.id)
            && (forall r :: r in Ordered(before) <==> r in before)
  {
    hide Chained, RowHash, Sound, LastHash, Ordered, InsertAll, Place;
    DistinctInit(init, f);
    BuiltRows(c, init);
    var before := InsertAll(c, [], init);
    forall r | r in before ensures r.fields.id != f.id {
      var i :| 0 <= i < |before| && before[i] == r;
      assert (init + [f])[i].id != (init + [f])[|init|].id;
    }
    row := Row(f, Some(LastHash(before)), Some(RowHash(c, f, LastHash(before))));
    InsertedLast(c, init, f);
    OrderedLast(before, row);
    HashOfLast(c, before);
    forall r ensures r in Ordered(before) <==> r in before { OrderedSameRows(before, r); }
  }

  lemma DistinctInit(init: seq<Fields>, f: Fields)
    requires DistinctEntries(init + [f])
    ensures DistinctEntries(init)
  {
    forall i, j | 0 <= i < j < |init| ensures init[i].id != init[j].id {
      assert (init + [f])[i].id != (init + [f])[j].id;
    }
  }

  lemma InsertedLast(c: Crypto, init: seq<Fields>, f: Fields)
    requires forall r <- InsertAll(c, [], init) :: r.fields.id != f.id
    ensures var before := InsertAll(c, [], init);
            InsertAll(c, [], init + [f]) == before + [Row(f, Some(LastHash(before)), Some(RowHash(c, f, LastHash(before))))]
  {
    hide LastHash, RowHash;
    assert (init + [f])[..|init|] == init;
    assert !HasId(InsertAll(c, [], init), f.id);
  }

  lemma OrderedLast(log: seq<Row>, row: Row)
    ensures Ordered(log + [row]) == Place(row, Ordered(log))
  {
    assert (log + [row])[..|log|] == log;
  }

  lemma HashOfLast(c: Crypto, log: seq<Row>)
    requires Sound(c) && (forall r <- log :: Chained(c, log, r))
    ensures '{' !in LastHash(log)
  {
    LastRowIsThere(log);
    assert '{' !in GENESIS;
    if LastRow(log).Some? { assert Chained(c, log, LastRow(log).value); }
  }

  /** One more entry keeps the order exactly if it comes after all the rows so far. */
  lemma IncreasingSnoc(init: seq<Fields>, f: Fields, log: seq<Row>)
    requires |log| == |init| && forall i :: 0 <= i < |log| ==> log[i].fields == init[i]
    requires forall r <- log :: r.fields.id != f.id
    ensures Increasing(init + [f]) <==> Increasing(init) && forall r <- log :: !Before(f, r.fields)
  {
    var all := init + [f];
    assert forall i :: 0 <= i < |init| ==> all[i] == init[i] && log[i] in log;
    if Increasing(all) {
      forall r | r in log ensures !Before(f, r.fields) {
        var i :| 0 <= i < |log| && log[i] == r;
        assert Before(all[i], all[|init|]);
      }
      forall i, j | 0 <= i < j < |init| ensures Before(init[i], init[j]) && init[i].id != init[j].id {
        assert Before(all[i], all[j]);
      }
    }
    if Increasing(init) && forall r <- log :: !Before(f, r.fields) {
      forall i, j | 0 <= i < j < |all| ensures Before(all[i], all[j]) && all[i].id != all[j].id {
        if j == |init| { assert log[i] in log; }
      }
    }
  }

  /** Hashed onto the last row and placed last. */
  lemma PlacedLast(c: Crypto, before: seq<Row>, sorted: seq<Row>, row: Row)
    requires Sound(c) && sorted == Ordered(before) && row.rowHash.Some? && row.prevHash == Some(LastHash(before))
    requires forall i :: 0 <= i < |sorted| ==> !Before(row.fields, sorted[i].fields)
    requires forall r <- before :: Chained(c, before, r)
    requires forall r :: r in sorted <==> r in before
    requires Linked(sorted) ==> sorted == before && LastRow(before) == (if before == [] then None else Some(before[|before| - 1]))
    ensures Linked(sorted + [row]) <==> Linked(sorted)
    ensures forall r <- before :: !Before(row.fields, r.fields)
  {
    hide Linked, Before, Chained;
    LinkedSnoc(sorted, row);
    HashedRows(c, before);
    forall r | r in before ensures !Before(row.fields, r.fields) {
      assert r in sorted;
      var i :| 0 <= i < |sorted| && sorted[i] == r;
    }
    if Linked(sorted) && before != [] {
      assert before[|before| - 1] in before;
    }
  }

  lemma HashedRows(c: Crypto, log: seq<Row>)
    requires forall r <- log :: Chained(c, log, r)
    ensures forall r <- log :: r.rowHash.Some?
  {
    forall r | r in log ensures r.rowHash.Some? { assert Chained(c, log, r); }
  }

  /** Placed before a row that names somebody else's hash. */
  lemma PlacedEarlier(c: Crypto, before: seq<Row>, sorted: seq<Row>, row: Row, p: nat)
    requires Sound(c) && (forall q <- before :: Chained(c, before, q)) && (forall r :: r in sorted <==> r in before)
    requires row.prevHash.Some? && '{' !in row.prevHash.value
    requires row.rowHash == Some(RowHash(c, row.fields, row.prevHash.value)) && forall q <- before :: q.fields.id != row.fields.id
    requires p < |sorted| && Before(row.fields, sorted[p].fields)
    ensures !Linked(sorted[..p] + [row] + sorted[p..])
    ensures exists r :: r in before && Before(row.fields, r.fields)
  {
    var u := sorted[..p] + [row] + sorted[p..];
    assert u[p] == row && u[p + 1] == sorted[p] && sorted[p] in sorted;
    NobodyNamesIt(c, before, row, sorted[p]);
    assert !LinkedAt(u, p + 1);
  }

  lemma NothingLinked()
    ensures Linked([]) && LastRow([]) == None
  {
  }

  lemma LinkOneMore(log: seq<Row>, row: Row)
    requires Linked(log) && row.rowHash.Some? && row.prevHash == Some(LastHash(log))
    requires LastRow(log) == (if log == [] then None else Some(log[|log| - 1]))
    requires log != [] ==> Before(log[|log| - 1].fields, row.fields)
    ensures Linked(log + [row]) && LastRow(log + [row]) == Some(row)
  {
    hide Linked, LastHash;
    LinkedSnoc(log, row);
    HashOfLinked(log);
    assert (log + [row])[..|log|] == log;
  }

  lemma HashOfLinked(log: seq<Row>)
    requires Linked(log) && LastRow(log) == (if log == [] then None else Some(log[|log| - 1]))
    ensures log != [] ==> log[|log| - 1].rowHash.Some?
    ensures LastHash(log) == (if log == [] then GENESIS else log[|log| - 1].rowHash.value)
  {
    if log != [] { assert LinkedAt(log, |log| - 1); }
  }

  lemma HashSeparates(c: Crypto, p: string, f: Fields, q: string, g: Fields)
    requires Sound(c) && '{' !in p && '{' !in q && RowHash(c, f, p) == RowHash(c, g, q)
    ensures p == q && f == g
  {
    var a, b := p + c.encode(f), q + c.encode(g);
    assert a == b;
    assert a[|p|] == '{' && b[|q|] == '{';
    forall k | 0 <= k < |p| ensures a[k] != '{' { assert a[k] == p[k] && p[k] in p; }
    forall k | 0 <= k < |q| ensures b[k] != '{' { assert b[k] == q[k] && q[k] in q; }
    assert |p| == |q|;
    assert p == a[..|p|] && q == b[..|q|];
    assert c.encode(f) == a[|p|..] && c.encode(g) == b[|q|..];
  }

  /** Change any covered column of one hashed row of a log that verified: that row no longer recomputes, every other does,
      and the walk reports it. */
  lemma TamperingIsLocated(c: Crypto, log: seq<Row>, i: nat, f: Fields)
    requires Sound(c) && i < |log| && (forall r <- log :: Consistent(c, r))
    requires log[i].rowHash.Some? && (log[i].prevHash.Some? ==> '{' !in log[i].prevHash.value)
    requires f != log[i].fields
    ensures var u := log[i := log[i].(fields := f)];
            && (forall r <- u :: !Consistent(c, r) <==> r == u[i])
            && Verdict(c, u) == Broken(f.id, |u|)
  {
    hide Walk, Ordered;
    var u := log[i := log[i].(fields := f)];
    var prev := if log[i].prevHash.Some? then log[i].prevHash.value else GENESIS;
    assert log[i] in log && u[i] in u;
    assert '{' !in GENESIS;
    if Consistent(c, u[i]) {
      HashSeparates(c, prev, f, prev, log[i].fields);
    }
    forall r | r in u ensures !Consistent(c, r) <==> r == u[i] {
      var j :| 0 <= j < |u| && u[j] == r;
      assert j != i ==> log[j] in log;
    }
    forall r ensures r in Ordered(u) <==> r in u { OrderedSameRows(u, r); }
    WalkReports(c, Ordered(u), u[i], |u|);
  }

  /** The walk stops at the one row that does not recompute. */
  lemma {:induction false} WalkReports(c: Crypto, sorted: seq<Row>, bad: Row, total: nat)
    requires bad in sorted && !Consistent(c, bad) && forall r <- sorted :: !Consistent(c, r) ==> r == bad
    ensures Walk(c, sorted, total) == Broken(bad.fields.id, total)
  {
    hide Consistent;
    assert sorted[0] in sorted;
    if Consistent(c, sorted[0]) {
      assert forall r <- sorted[1..] :: r in sorted;
      WalkReports(c, sorted[1..], bad, total);
    }
  }

  lemma {:induction false} WalkIsValidExactly(c: Crypto, sorted: seq<Row>, total: nat)
    ensures Walk(c, sorted, total).Valid? <==> forall r <- sorted :: Consistent(c, r)
  {
    if sorted != [] {
      WalkIsValidExactly(c, sorted[1..], total);
      assert forall r :: r in sorted <==> r == sorted[0] || r in sorted[1..];
    }
  }

  /** The walk never compares a row with the one before it. Take any log, and of its rows any sequence: some deleted,
      some repeated, in any order. The walk accepts it exactly when each of the rows it still holds recomputes; so
      whatever is done to a log that verifies, short of changing a row, leaves a log that verifies. */
  lemma DeletionIsInvisible(c: Crypto, log: seq<Row>, kept: seq<Row>)
    requires forall r <- kept :: r in log
    ensures Verdict(c, kept).Valid? <==> forall r <- kept :: Consistent(c, r)
    ensures Verdict(c, log).Valid? ==> Verdict(c, kept).Valid?
  {
    hide Walk, Ordered, Consistent;
    forall r ensures (r in Ordered(kept) <==> r in kept) && (r in Ordered(log) <==> r in log) {
      OrderedSameRows(kept, r);
      OrderedSameRows(log, r);
    }
    WalkIsValidExactly(c, Ordered(kept), |kept|);
    WalkIsValidExactly(c, Ordered(log), |log|);
  }

  predicate DistinctIds(log: seq<Row>) {
    forall i, j :: 0 <= i < j < |log| ==> log[i].fields.id != log[j].fields.id
  }

  /** In a linked log, the row that names the hash of row `i` is row `i + 1`. */
  lemma OnlySuccessorLinks(c: Crypto, log: seq<Row>, i: nat, j: nat)
    requires Sound(c) && Linked(log) && DistinctIds(log) && (forall r <- log :: Consistent(c, r))
    requires i < |log| && j < |log| && log[j].prevHash == log[i].rowHash
    ensures j == i + 1
  {
    assert LinkedAt(log, j) && LinkedAt(log, i) && log[i] in log && Consistent(c, log[i]);
    var p := PreviousHash(c, log, i);
    if j > 0 {
      assert LinkedAt(log, j - 1) && log[j - 1] in log && Consistent(c, log[j - 1]);
      var q := PreviousHash(c, log, j - 1);
      HashSeparates(c, p, log[i].fields, q, log[j - 1].fields);
    }
  }

  /** What row `i` was hashed onto: `genesis` or another hash, in either case no JSON text. */
  lemma PreviousHash(c: Crypto, log: seq<Row>, i: nat) returns (p: string)
    requires Sound(c) && Linked(log) && i < |log| && forall r <- log :: Consistent(c, r)
    ensures log[i].prevHash == Some(p) && '{' !in p && log[i].rowHash == Some(RowHash(c, log[i].fields, p))
  {
    assert LinkedAt(log, i) && log[i] in log;
    assert '{' !in GENESIS;
    if i > 0 {
      assert LinkedAt(log, i - 1) && log[i - 1] in log && Consistent(c, log[i - 1]);
    }
    p := log[i].prevHash.value;
  }

  /** The comparison the walk leaves out would settle it: of the sequences of rows of a linked log that verifies, those
      that are linked themselves are exactly its prefixes. Whoever deletes, repeats or moves a row, other than cutting
      rows off the end, breaks the links. */
  lemma {:induction false} LinkedExactlyPrefixes(c: Crypto, log: seq<Row>, kept: seq<Row>)
    requires Sound(c) && Linked(log) && DistinctIds(log) && (forall r <- log :: Consistent(c, r))
    requires forall r <- kept :: r in log
    ensures Linked(kept) <==> kept <= log
  {
    if kept == [] {
      NothingLinked();
    } else {
      var n := |kept| - 1;
      var init, last := kept[..n], kept[n];
      LinkedExactlyPrefixes(c, log, init);
      LinkedSnoc(init, last);
      assert kept == init + [last];
      assert last in kept && last in log;
      var j :| 0 <= j < |log| && log[j] == last;
      assert LinkedAt(log, j);
      if Linked(kept) {
        assert LinkedAt(kept, n);
        if n == 0 {
          if j > 0 { FirstIsGenesis(c, log, j); }
        } else {
          assert kept[n - 1] == init[n - 1] == log[n - 1];
          OnlySuccessorLinks(c, log, n - 1, j);
        }
      }
      if kept <= log {
        assert init <= log && last == log[n] && LinkedAt(log, n);
      }
    }
  }

  /** Removing one row breaks the links exactly when it is not the last. */
  lemma RemovalBreaksLinks(c: Crypto, log: seq<Row>, i: nat)
    requires Sound(c) && Linked(log) && DistinctIds(log) && (forall r <- log :: Consistent(c, r)) && i < |log|
    ensures Verdict(c, log[..i] + log[i + 1..]).Valid?
    ensures Linked(log[..i] + log[i + 1..]) <==> i == |log| - 1
  {
    var kept := log[..i] + log[i + 1..];
    hide Verdict, Linked, Consistent;
    DeletionIsInvisible(c, log, kept);
    LinkedExactlyPrefixes(c, log, kept);
    if i < |log| - 1 {
      assert kept[i] == log[i + 1] && log[i + 1].fields.id != log[i].fields.id;
    } else {
      assert kept == log[..i];
    }
  }

  lemma LinkedSnoc(log: seq<Row>, row: Row)
    ensures Linked(log + [row]) <==>
            Linked(log) && row.rowHash.Some? && row.prevHash == if log == [] then Some(GENESIS) else log[|log| - 1].rowHash
  {
    var u := log + [row];
    if Linked(u) {
      forall i | 0 <= i < |log| ensures LinkedAt(log, i) { assert LinkedAt(u, i); }
      assert LinkedAt(u, |log|);
    }
    if Linked(log) && row.rowHash.Some? && row.prevHash == if log == [] then Some(GENESIS) else log[|log| - 1].rowHash {
      forall i | 0 <= i < |u| ensures LinkedAt(u, i) {
        if i < |log| { assert LinkedAt(log, i); }
      }
    }
  }

  /** Only the first row of a linked log names `genesis`. */
  lemma FirstIsGenesis(c: Crypto, log: seq<Row>, j: nat)
    requires Sound(c) && Linked(log) && (forall r <- log :: Consistent(c, r)) && 0 < j < |log|
    ensures log[j].prevHash != Some(GENESIS)
  {
    assert LinkedAt(log, j) && LinkedAt(log, j - 1) && log[j - 1] in log;
    var p := PreviousHash(c, log, j - 1);
  }

  /** The smallest case: of two rows inserted in order the second alone still verifies, although its predecessor hash
      then names no row. */
  lemma DanglingLinkVerifies(c: Crypto, f: Fields, g: Fields)
    requires Sound(c) && Before(f, g) && f.id != g.id
    ensures var log := InsertAll(c, [], [f, g]);
            && |log| == 2 && Consistent(c, log[1])
            && log[1].prevHash == log[0].rowHash && log[1].prevHash != log[1].rowHash
  {
    hide InsertAll;
    OrderedInsertsFormOneList(c, [f, g]);
    BuiltLogIsConsistent(c, [], [f, g]);
    var log := InsertAll(c, [], [f, g]);
    assert log[1] in log && log[0] in log;
    assert Consistent(c, log[0]) && Consistent(c, log[1]) && LinkedAt(log, 0) && LinkedAt(log, 1);
    assert log[0].fields == f && log[1].fields == g;
    assert '{' !in GENESIS;
    if log[1].prevHash == log[1].rowHash {
      HashSeparates(c, GENESIS, f, log[0].rowHash.value, g);
    }
  }
}
