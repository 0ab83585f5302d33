/** Unique indexes over interleavings: exactly when a commit keeps one free of
    duplicates.  */
module Uniqueness {
  import opened Hashing
  import opened KeyCodec
  import opened Tables
  import opened Derived
  import opened Transactions
  import opened UniqueChecks
  import opened PairTable

  /** No value given up by one pending row is claimed by two others. */
  ghost predicate FreedOnce(key: UniqueKey, buf: Buffer)
  {
    forall p, x, y, v
      {:trigger HasKey(key, p, buf[p].prior, v), HasKey(key, x, buf[x].next, v), HasKey(key, y, buf[y].next, v)} ::
      p in buf && x in buf && y in buf && p != x && p != y && x != y && HasKey(key, p, buf[p].prior, v) &&
      !HasKey(key, p, buf[p].next, v) ==>
        !(HasKey(key, x, buf[x].next, v) && HasKey(key, y, buf[y].next, v))
  }

  /** No row that the transaction inserted and deleted again stands for a committed
      row with a value the transaction claims. */
  ghost predicate NoneHidden(key: UniqueKey, db: Database, buf: Buffer)
  {
    forall x, q, v {:trigger HasKey(key, x, buf[x].next, v), db[q]} ::
      x in buf && q in buf && q in db && NetNoOp(buf[q]) && HasKey(key, x, buf[x].next, v) ==> key(q, db[q]) != Some(v)
  }

  ghost predicate NoNetNoOps(buf: Buffer)
  {
    forall ref {:trigger buf[ref]} :: ref in buf ==> !NetNoOp(buf[ref])
  }

  // -------------------------------------------------------------- refusals

  /** A statement is refused a value only if committing the write-set with its row would
      leave the value to two rows. */
  lemma {:induction false} RefusedStatementDuplicates(key: UniqueKey, db: Database, buf: Buffer, ref: RowRef, row: Row)
    requires BasedOn(db, buf) && ref in buf && buf[ref].next == Some(row) && !UniqueFree(db, buf, key, ref, row)
    ensures !UniqueIn(Applied(db, buf), key)
  {
    var v, after := key(ref, row).value, Applied(db, buf);
    assert after[ref] == row;
    if q :| q in db && q != ref && key(q, db[q]) == Some(v) {
      assert !Freed(buf, key, ref, v);
      if q in buf {
        assert buf[q].prior == Lookup(db, q) && HasKey(key, q, buf[q].prior, v);
        assert HasKey(key, q, buf[q].next, v) && after[q] == buf[q].next.value;
      } else {
        assert after[q] == db[q];
      }
    } else {
      assert !CommittedConflict(db, key, ref, v);
      var p :| p in buf && p != ref && HasKey(key, p, buf[p].next, v);
      assert after[p] == buf[p].next.value;
    }
  }

  /** So it is with a write-set that fails the re-check at commit. */
  lemma {:induction false} RefusedCommitDuplicates(key: UniqueKey, db: Database, buf: Buffer)
    requires !Revalidated(db, buf, key)
    ensures !UniqueIn(Applied(db, buf), key)
  {
    var x, y, v :| x in buf && y in db && y != x && HasKey(key, x, buf[x].next, v) && key(y, db[y]) == Some(v) &&
                   !(y in buf && !HasKey(key, y, buf[y].next, v));
    var after := Applied(db, buf);
    assert after[x] == buf[x].next.value;
    if y in buf {
      assert after[y] == buf[y].next.value;
    } else {
      assert after[y] == db[y];
    }
  }

  // ---------------------------------------------------------- claims of a buffer

  lemma {:induction false} WhoHadIt(key: UniqueKey, buf: Buffer, x: RowRef, y: RowRef,
                                    v: ByteString) returns (p: RowRef)
    requires SharedOnlyIfFreed(key, buf) && x in buf && y in buf && x != y
    requires HasKey(key, x, buf[x].next, v) && HasKey(key, y, buf[y].next, v)
    ensures p in buf && p != x && p != y && HasKey(key, p, buf[p].prior, v)
  {
    hide HasKey;
    assert HadBy(key, buf, x, y, v);
    p :| p in buf && p != x && p != y && HasKey(key, p, buf[p].prior, v);
  }

  lemma {:induction false} ClaimedOnce(key: UniqueKey, buf: Buffer, p: RowRef, x: RowRef, y: RowRef, v: ByteString)
    requires FreedOnce(key, buf) && p in buf && x in buf && y in buf && p != x && p != y && x != y
    requires HasKey(key, p, buf[p].prior, v) && !HasKey(key, p, buf[p].next, v)
    ensures !(HasKey(key, x, buf[x].next, v) && HasKey(key, y, buf[y].next, v))
  {
    hide HasKey;
  }

  lemma {:induction false} PriorOnce(key: UniqueKey, db: Database, buf: Buffer, p: RowRef, q: RowRef, v: ByteString)
    requires EffectiveBased(db, buf) && UniqueIn(db, key) && p in buf && q in buf && p != q
    requires HasKey(key, p, buf[p].prior, v)
    ensures !HasKey(key, q, buf[q].prior, v)
  {
    assert !NetNoOp(buf[p]) && db[p] == buf[p].prior.value;
    if buf[q].prior.Some? {
      assert !NetNoOp(buf[q]) && db[q] == buf[q].prior.value;
    }
  }

  lemma {:induction false} BothPending(key: UniqueKey, db: Database, buf: Buffer, a: RowRef, b: RowRef, v: ByteString)
    requires EffectiveBased(db, buf) && UniqueIn(db, key) && SharedOnlyIfFreed(key, buf) && FreedOnce(key, buf)
    requires a in buf && b in buf && a != b && HasKey(key, a, buf[a].next, v)
    ensures !HasKey(key, b, buf[b].next, v)
  {
    hide UniqueIn, EffectiveBased, HasKey, SharedOnlyIfFreed, FreedOnce;
    if HasKey(key, b, buf[b].next, v) {
      var p := WhoHadIt(key, buf, a, b, v);
      if HasKey(key, p, buf[p].next, v) {
        var q := WhoHadIt(key, buf, a, p, v);
        PriorOnce(key, db, buf, p, q, v);
      } else {
        ClaimedOnce(key, buf, p, a, b, v);
      }
    }
  }

  // ------------------------------------------------------------- both directions

  /** The row a database holds after a buffer is either the buffer's or the old one. */
  lemma {:induction false} AfterIs(key: UniqueKey, db: Database, buf: Buffer, a: RowRef, v: ByteString)
    ensures HasKey(key, a, Lookup(Applied(db, buf), a), v) <==>
            if a in buf && !NetNoOp(buf[a]) then HasKey(key, a, buf[a].next, v) else HasKey(key, a, Lookup(db, a), v)
  {
    hide Applied;
    AppliedAt(db, buf, a);
  }

  /** A claimed value and an untouched committed row. */
  lemma {:induction false} ClaimClear(key: UniqueKey, db: Database, buf: Buffer, x: RowRef, y: RowRef, v: ByteString)
    requires ClaimsTouched(key, db, buf) && NoneHidden(key, db, buf)
    requires x in buf && x != y && HasKey(key, x, buf[x].next, v) && (y in buf ==> NetNoOp(buf[y]))
    ensures !HasKey(key, y, Lookup(db, y), v)
  {
    assert HasKey(key, x, buf[x].next, v);
    assert y in db ==> db[y] == db[y];
  }

  lemma {:induction false} AppliedUnique(key: UniqueKey, db: Database, buf: Buffer)
    requires EffectiveBased(db, buf) && UniqueIn(db, key) && SharedOnlyIfFreed(key, buf) && ClaimsTouched(key, db, buf)
    requires FreedOnce(key, buf) && NoneHidden(key, db, buf)
    ensures UniqueIn(Applied(db, buf), key)
  {
    hide SharedOnlyIfFreed, FreedOnce, NoneHidden, ClaimsTouched, EffectiveBased, Applied, UniqueIn;
    var after := Applied(db, buf);
    forall a, b, v | a != b && HasKey(key, a, Lookup(after, a), v) ensures !HasKey(key, b, Lookup(after, b), v) {
      AfterIs(key, db, buf, a, v);
      AfterIs(key, db, buf, b, v);
      var mine, theirs := a in buf && !NetNoOp(buf[a]), b in buf && !NetNoOp(buf[b]);
      if mine && theirs {
        BothPending(key, db, buf, a, b, v);
      } else if mine {
        ClaimClear(key, db, buf, a, b, v);
      } else if theirs {
        if HasKey(key, b, buf[b].next, v) {
          ClaimClear(key, db, buf, b, a, v);
        }
      } else {
        OneHolder(key, db, a, b, v);
      }
    }
    UniqueByHolders(key, after);
  }

  lemma {:induction false} OneHolder(key: UniqueKey, db: Database, a: RowRef, b: RowRef, v: ByteString)
    requires UniqueIn(db, key) && a != b && HasKey(key, a, Lookup(db, a), v)
    ensures !HasKey(key, b, Lookup(db, b), v)
  {
    if b in db {
      assert db[a] == db[a] && db[b] == db[b];
    }
  }

  lemma {:induction false} UniqueByHolders(key: UniqueKey, db: Database)
    requires forall a, b, v {:trigger HasKey(key, a, Lookup(db, a), v), HasKey(key, b, Lookup(db, b), v)} ::
               a != b && HasKey(key, a, Lookup(db, a), v) ==> !HasKey(key, b, Lookup(db, b), v)
    ensures UniqueIn(db, key)
  {
    forall a, b | a in db && b in db && a != b && key(a, db[a]).Some? ensures key(a, db[a]) != key(b, db[b]) {
      var v := key(a, db[a]).value;
      assert HasKey(key, a, Lookup(db, a), v);
      assert HasKey(key, b, Lookup(db, b), v) <==> key(b, db[b]) == Some(v);
    }
  }

  /** Two claims of one value, or a claim of a hidden row's value, end as a duplicate. */
  lemma {:induction false} UniqueNeedsBoth(key: UniqueKey, db: Database, buf: Buffer)
    requires UniqueIn(Applied(db, buf), key)
    ensures FreedOnce(key, buf) && NoneHidden(key, db, buf)
  {
    hide Applied, UniqueIn;
    var after := Applied(db, buf);
    forall x, y, v | x in buf && y in buf && x != y && HasKey(key, x, buf[x].next, v)
      ensures !HasKey(key, y, buf[y].next, v)
    {
      AfterIs(key, db, buf, x, v);
      AfterIs(key, db, buf, y, v);
      OneHolder(key, after, x, y, v);
    }
    forall x, q, v | x in buf && q in buf && q in db && NetNoOp(buf[q]) && HasKey(key, x, buf[x].next, v)
      ensures key(q, db[q]) != Some(v)
    {
      AfterIs(key, db, buf, x, v);
      AfterIs(key, db, buf, q, v);
      OneHolder(key, after, x, q, v);
    }
  }

  /** Over any interleaving, a commit to an index free of duplicates leaves it free of
      duplicates if and only if its write-set claims no freed value twice and claims no
      value of a committed row that it inserted and deleted itself. */
  lemma {:induction false} CommitUniqueIff(cat: Catalog, worlds: seq<World>, actors: seq<nat>, keys: seq<UniqueKey>,
                                           i: nat, u: nat)
    requires Interleaving(cat, worlds, actors, keys) && 0 < i < |worlds|
    requires Commit(worlds[i - 1], worlds[i], actors[i], keys)
    requires u < |keys| && UniqueIn(worlds[i - 1].rows, keys[u])
    ensures var (db, buf) := (worlds[i - 1].rows, worlds[i - 1].sessions[actors[i]].txn.rows);
            UniqueIn(worlds[i].rows, keys[u]) <==> FreedOnce(keys[u], buf) && NoneHidden(keys[u], db, buf)
  {
    hide Next, GoodRows, Applied, Folded, SharedOnlyIfFreed, UniqueIn, ClaimsTouched, FreedOnce, GoodPair, Validated,
         Revalidated,
         EffectiveBased, NoneHidden;
    var w, s := worlds[i - 1], actors[i];
    var buf := w.sessions[s].txn.rows;
    RunKeeps(cat, worlds, actors, keys, i - 1);
    assert SessionInv(cat, w.version, w.rows, keys, w.sessions[s]);
    CommitsBased(cat, worlds, actors, keys, i);
    if w.version != w.sessions[s].txn.base {
      RevalidatedClaims(keys[u], w.rows, buf);
    }
    if FreedOnce(keys[u], buf) && NoneHidden(keys[u], w.rows, buf) {
      AppliedUnique(keys[u], w.rows, buf);
    }
    if UniqueIn(worlds[i].rows, keys[u]) {
      UniqueNeedsBoth(keys[u], w.rows, buf);
    }
  }

  lemma {:induction false} RevalidatedClaims(key: UniqueKey, db: Database, buf: Buffer)
    requires Revalidated(db, buf, key)
    ensures ClaimsTouched(key, db, buf)
  {
  }

  /** In particular a write-set without net no-ops need only claim freed values once. */
  lemma {:induction false} CommitKeepsUnique(cat: Catalog, worlds: seq<World>, actors: seq<nat>, keys: seq<UniqueKey>,
                                             i: nat, u: nat)
    requires Interleaving(cat, worlds, actors, keys) && 0 < i < |worlds|
    requires Commit(worlds[i - 1], worlds[i], actors[i], keys)
    requires u < |keys| && UniqueIn(worlds[i - 1].rows, keys[u])
    requires var buf := worlds[i - 1].sessions[actors[i]].txn.rows; NoNetNoOps(buf) && FreedOnce(keys[u], buf)
    ensures UniqueIn(worlds[i].rows, keys[u])
  {
    hide Interleaving, Commit, UniqueIn, FreedOnce;
    CommitUniqueIff(cat, worlds, actors, keys, i, u);
  }

  // ------------------------------------------------------------- failing runs

  /** A run whose last step is a commit that puts duplicates into the index. */
  ghost predicate EndsInDuplicates(cat: Catalog, worlds: seq<World>, actors: seq<nat>, key: UniqueKey)
  {
    var n := |worlds| - 1;
    Interleaving(cat, worlds, actors, [key]) && n > 0 && Commit(worlds[n - 1], worlds[n], actors[n], [key]) &&
    UniqueIn(worlds[n - 1].rows, key) && !UniqueIn(worlds[n].rows, key)
  }

  /** The write-set that the last step commits. */
  ghost function LastBuffer(worlds: seq<World>, actors: seq<nat>): Buffer
  {
    var n := |worlds| - 1;
    if n > 0 && |actors| == |worlds| && Running(worlds[n - 1], actors[n])
    then worlds[n - 1].sessions[actors[n]].txn.rows else map[]
  }

  /** It claims the value of a row it hides. */
  ghost predicate LastHides(key: UniqueKey, worlds: seq<World>, actors: seq<nat>)
  {
    |worlds| > 1 && !NoneHidden(key, worlds[|worlds| - 2].rows, LastBuffer(worlds, actors))
  }

  /** The condition that a failing run misses. */
  lemma {:induction false} WhichFails(cat: Catalog, worlds: seq<World>, actors: seq<nat>, key: UniqueKey)
    requires EndsInDuplicates(cat, worlds, actors, key)
    ensures !FreedOnce(key, LastBuffer(worlds, actors)) || LastHides(key, worlds, actors)
  {
    hide UniqueIn, FreedOnce, NoneHidden, GoodRows, Transactions.Next, AllRevalidated, LedgerMoves;
    assert [key][0] == key;
    CommitUniqueIff(cat, worlds, actors, [key], |worlds| - 1, 0);
  }

  /** One session whose transaction began at version 0. */
  ghost function Solo(version: nat, rows: Database, buf: Buffer, stmt: Buffer): World
  {
    World(version, rows, map[0 := Active(Txn(0, false, buf, []), stmt)])
  }

  /** A run of that session, and where it stands between statements. */
  ghost predicate SoloRun(cat: Catalog, worlds: seq<World>, actors: seq<nat>, key: UniqueKey, version: nat,
                          rows: Database, buf: Buffer)
  {
    |worlds| > 0 && |actors| == |worlds| && Interleaving(cat, worlds, actors, [key]) &&
    worlds[|worlds| - 1] == Solo(version, rows, buf, map[])
  }

  lemma {:induction false} OneMore(cat: Catalog, worlds: seq<World>, actors: seq<nat>, keys: seq<UniqueKey>, w: World)
    requires Interleaving(cat, worlds, actors, keys) && Transactions.Next(cat, worlds[|worlds| - 1], w, 0, keys)
    ensures Interleaving(cat, worlds + [w], actors + [0], keys)
  {
    hide Transactions.Next, GoodRows;
    var ws, as_ := worlds + [w], actors + [0];
    forall i | 0 < i < |ws| ensures Transactions.Next(cat, ws[i - 1], ws[i], as_[i], keys) {
      if i < |worlds| {
        assert ws[i] == worlds[i] && ws[i - 1] == worlds[i - 1] && as_[i] == actors[i];
      }
    }
  }

  lemma {:induction false} SoloBegins(cat: Catalog, rows: Database, key: UniqueKey) returns (worlds: seq<World>,
                                      actors: seq<nat>)
    requires GoodRows(cat, rows)
    ensures SoloRun(cat, worlds, actors, key, 0, rows, map[])
  {
    hide GoodRows, Edit, Commit, SavepointStep;
    var first := World(0, rows, map[]);
    var w := Solo(0, rows, map[], map[]);
    assert Begin(first, w, 0) by {
      assert w == With(first, 0, Active(Txn(first.version, false, map[], []), map[]));
    }
    assert Interleaving(cat, [first], [0], [key]);
    OneMore(cat, [first], [0], [key], w);
    return [first] + [w], [0] + [0];
  }

  lemma {:induction false} EditStep(cat: Catalog, w: World, w': World, s: nat, keys: seq<UniqueKey>, stmt': Buffer,
                                    ref: RowRef, found: Option<Row>, next: Option<Row>)
    requires Running(w, s) && w' == With(w, s, Active(w.sessions[s].txn, stmt'))
    requires Edits(cat, w.rows, w.version, w.sessions[s].txn, w.sessions[s].stmt, stmt', keys, ref, found, next)
    ensures Edit(cat, w, w', s, keys)
  {
    hide Edits;
    var (txn, stmt) := (w.sessions[s].txn, w.sessions[s].stmt);
    assert Edits(cat, w.rows, w.version, txn, stmt, stmt', keys, ref, found, next) &&
           w' == With(w, s, Active(txn, stmt'));
  }

  /** One statement that writes one row. */
  lemma {:induction false} SoloWrites(cat: Catalog, worlds: seq<World>, actors: seq<nat>, key: UniqueKey,
                                      rows: Database, buf: Buffer,
                                      ref: RowRef, found: Option<Row>, next: Option<Row>)
    returns (worlds': seq<World>, actors': seq<nat>)
    requires SoloRun(cat, worlds, actors, key, 0, rows, buf) && GoodPair(cat, ref, Pending(found, next))
    requires ref !in buf ==> found == Lookup(rows, ref)
    requires next.Some? ==> UniqueFree(rows, Written(buf, ref, found, next), key, ref, next.value)
    ensures SoloRun(cat, worlds', actors', key, 0, rows, Written(buf, ref, found, next))
  {
    hide GoodRows, GoodPair, UniqueFree, Interleaving, Folded, Commit, SavepointStep;
    assert |worlds| > 0;
    var stmt := Written(map[], ref, found, next);
    var w, w1 := Solo(0, rows, buf, map[]), Solo(0, rows, buf, stmt);
    var w2 := Solo(0, rows, Written(buf, ref, found, next), map[]);
    FoldSet(buf, map[], ref, found, next);
    FoldNothing(buf);
    assert w1 == With(w, 0, Active(w.sessions[0].txn, stmt));
    EditStep(cat, w, w1, 0, [key], stmt, ref, found, next);
    OneMore(cat, worlds, actors, [key], w1);
    assert w2 == With(w1, 0, Active(w1.sessions[0].txn.(rows := Folded(buf, stmt)), map[]));
    assert Transactions.Close(w1, w2, 0);
    OneMore(cat, worlds + [w1], actors + [0], [key], w2);
    return worlds + [w1] + [w2], actors + [0] + [0];
  }

  /** Another user of the store commits meanwhile. */
  lemma {:induction false} SoloOvertaken(cat: Catalog, worlds: seq<World>, actors: seq<nat>, key: UniqueKey,
                                         rows: Database, buf: Buffer, rows': Database)
    returns (worlds': seq<World>, actors': seq<nat>)
    requires SoloRun(cat, worlds, actors, key, 0, rows, buf) && GoodRows(cat, rows') && rows' != rows
    ensures SoloRun(cat, worlds', actors', key, 1, rows', buf)
  {
    hide GoodRows, Interleaving, Edit, Commit, SavepointStep;
    var w := Solo(1, rows', buf, map[]);
    assert Elsewhere(cat, worlds[|worlds| - 1], w);
    OneMore(cat, worlds, actors, [key], w);
    return worlds + [w], actors + [0];
  }

  lemma {:induction false} SoloCommits(cat: Catalog, worlds: seq<World>, actors: seq<nat>, key: UniqueKey, version: nat,
                                       rows: Database, buf: Buffer)
    returns (worlds': seq<World>, actors': seq<nat>)
    requires SoloRun(cat, worlds, actors, key, version, rows, buf) && UniqueIn(rows, key)
    requires !UniqueIn(Applied(rows, buf), key)
    requires version != 0 ==> Validated(rows, buf) && Revalidated(rows, buf, key)
    ensures EndsInDuplicates(cat, worlds', actors', key) && LastBuffer(worlds', actors') == buf
  {
    hide GoodRows, Interleaving, Edit, SavepointStep, UniqueIn, Applied, Validated, Revalidated;
    var after := Applied(rows, buf);
    var w := Solo(version, rows, buf, map[]);
    var w' := World(if after == rows then version else version + 1, after, map[0 := Idle]);
    assert w.sessions[0 := Idle] == map[0 := Idle];
    assert Commit(w, w', 0, [key]);
    OneMore(cat, worlds, actors, [key], w');
    worlds', actors' := worlds + [w'], actors + [0];
    assert worlds'[|worlds| - 1] == w && worlds'[|worlds|] == w' && actors'[|worlds|] == 0;
  }

  /** Rows of the traces: an owner's row, the same row moved off the value, and other
      rows that have the value. */
  ghost predicate Distinguished(cat: Catalog, key: UniqueKey, a: RowRef, held: Row, moved: Row, v: ByteString)
  {
    Storing(cat, a, held) && Storing(cat, a, moved) && key(a, held) == Some(v) && key(a, moved) == None
  }

  ghost predicate Claimant(cat: Catalog, key: UniqueKey, b: RowRef, row: Row, v: ByteString)
  {
    Storing(cat, b, row) && key(b, row) == Some(v)
  }

  /** One row gives a value up and two others claim it; every check passes. */
  lemma {:induction false} FreedTwiceRun(cat: Catalog, key: UniqueKey, a: RowRef, b: RowRef, c: RowRef, held: Row,
                                         moved: Row, rb: Row, rc: Row, v: ByteString)
    returns (worlds: seq<World>, actors: seq<nat>)
    requires a != b && b != c && a != c && Distinguished(cat, key, a, held, moved, v) && Claimant(cat, key, b, rb, v)
    requires Claimant(cat, key, c, rc, v)
    ensures EndsInDuplicates(cat, worlds, actors, key) && NoNetNoOps(LastBuffer(worlds, actors))
  {
    hide Storing, Interleaving, Applied, EndsInDuplicates, SoloRun, LastBuffer;
    var db := map[a := held];
    var s1 := Written(map[], a, Some(held), Some(moved));
    var s2 := Written(s1, b, None, Some(rb));
    var s3 := Written(s2, c, None, Some(rc));
    worlds, actors := SoloBegins(cat, db, key);
    worlds, actors := SoloWrites(cat, worlds, actors, key, db, map[], a, Some(held), Some(moved));
    GivesUp(key, db, s2, a, b, v);
    worlds, actors := SoloWrites(cat, worlds, actors, key, db, s1, b, None, Some(rb));
    GivesUp(key, db, s3, a, c, v);
    worlds, actors := SoloWrites(cat, worlds, actors, key, db, s2, c, None, Some(rc));
    TwoClaims(key, db, s3, b, c, v);
    worlds, actors := SoloCommits(cat, worlds, actors, key, 0, db, s3);
  }

  lemma {:induction false} GivesUp(key: UniqueKey, db: Database, buf: Buffer, a: RowRef, b: RowRef, v: ByteString)
    requires a in buf && b in buf && a != b && HasKey(key, a, buf[a].prior, v) && !HasKey(key, a, buf[a].next, v)
    requires a in db && key(a, db[a]) == Some(v) && HasKey(key, b, buf[b].next, v)
    ensures UniqueFree(db, buf, key, b, buf[b].next.value)
  {
    assert Freed(buf, key, b, v) && CommittedConflict(db, key, b, v);
  }

  lemma {:induction false} TwoClaims(key: UniqueKey, db: Database, buf: Buffer, x: RowRef, y: RowRef, v: ByteString)
    requires x in buf && y in buf && x != y && HasKey(key, x, buf[x].next, v) && HasKey(key, y, buf[y].next, v)
    ensures !UniqueIn(Applied(db, buf), key)
  {
    hide Applied, UniqueIn;
    AfterIs(key, db, buf, x, v);
    AfterIs(key, db, buf, y, v);
    if UniqueIn(Applied(db, buf), key) {
      OneHolder(key, Applied(db, buf), x, y, v);
    }
  }

  /** A row inserted and deleted in the transaction hides a row that another user
      committed under its key. */
  lemma {:induction false} HiddenRowRun(cat: Catalog, key: UniqueKey, q: RowRef, x: RowRef, theirs: Row, mine: Row,
                                        rx: Row, v: ByteString)
    returns (worlds: seq<World>, actors: seq<nat>)
    requires q != x && Distinguished(cat, key, q, theirs, mine, v) && Claimant(cat, key, x, rx, v)
    ensures EndsInDuplicates(cat, worlds, actors, key) && FreedOnce(key, LastBuffer(worlds, actors))
  {
    hide Storing, Interleaving, Applied, EndsInDuplicates, SoloRun, LastBuffer;
    var none: Database, db := map[], map[q := theirs];
    var s1 := Written(map[], q, None, Some(mine));
    var s2 := Written(s1, q, Some(mine), None);
    var s3 := Written(s2, x, None, Some(rx));
    worlds, actors := SoloBegins(cat, none, key);
    worlds, actors := SoloWrites(cat, worlds, actors, key, none, map[], q, None, Some(mine));
    worlds, actors := SoloWrites(cat, worlds, actors, key, none, s1, q, Some(mine), None);
    worlds, actors := SoloWrites(cat, worlds, actors, key, none, s2, x, None, Some(rx));
    worlds, actors := SoloOvertaken(cat, worlds, actors, key, none, s3, db);
    HiddenPasses(key, db, s3, q, x, v);
    worlds, actors := SoloCommits(cat, worlds, actors, key, 1, db, s3);
  }

  lemma {:induction false} HiddenPasses(key: UniqueKey, db: Database, buf: Buffer, q: RowRef, x: RowRef, v: ByteString)
    requires q != x && db.Keys == {q} && key(q, db[q]) == Some(v)
    requires buf.Keys == {q, x} && NetNoOp(buf[q]) && buf[x].prior.None? && HasKey(key, x, buf[x].next, v)
    ensures Validated(db, buf) && Revalidated(db, buf, key) && UniqueIn(db, key) && !UniqueIn(Applied(db, buf), key)
  {
    hide Applied;
    AfterIs(key, db, buf, q, v);
    AfterIs(key, db, buf, x, v);
    if UniqueIn(Applied(db, buf), key) {
      OneHolder(key, Applied(db, buf), q, x, v);
    }
  }

  // ----------------------------------------------------------- concrete inputs

  /** The unique index on the second column. */
  ghost function PairKey(): UniqueKey
  {
    KeyOf(PAIR_CATALOG, PAIRS, 0)
  }

  lemma {:induction false} PairHasKey(id: Int64, value: Option<Int64>)
    ensures Storing(PAIR_CATALOG, PairRef(id), PairRow(id, value))
    ensures PairKey()(PairRef(id), PairRow(id, value)) ==
            if value.Some? then Some(EncodeSlots(true, [IntSlot(value.value)])) else None
  {
    hide EncodeSlots;
    PairStored(id, value);
    assert PAIR_CATALOG[PAIRS].indexes[0] == PAIR_DEF.indexes[0];
    assert Columns(PAIR_DEF.indexes[0], PairRow(id, value))[0] == PairRow(id, value)[1];
  }

  /** Without the freed-once condition a run ends in duplicates: (1,5) becomes
      (1,NULL), then (2,5) and (3,5) are inserted. */
  lemma {:induction false} FreedTwiceDuplicates()
    ensures exists worlds, actors ::
              EndsInDuplicates(PAIR_CATALOG, worlds, actors, PairKey()) &&
              !FreedOnce(PairKey(), LastBuffer(worlds, actors))
  {
    hide EncodeSlots, EndsInDuplicates, PairKey, LastBuffer, FreedOnce, Storing;
    PairHasKey(1, Some(5));
    PairHasKey(1, None);
    PairHasKey(2, Some(5));
    PairHasKey(3, Some(5));
    PairRefsDiffer(1, 2);
    PairRefsDiffer(2, 3);
    PairRefsDiffer(1, 3);
    var worlds, actors := FreedTwiceRun(PAIR_CATALOG, PairKey(), PairRef(1), PairRef(2), PairRef(3),
                                        PairRow(1, Some(5)), PairRow(1, None),
                                        PairRow(2, Some(5)), PairRow(3, Some(5)), EncodeSlots(true, [IntSlot(5)]));
    WhichFails(PAIR_CATALOG, worlds, actors, PairKey());
  }

  /** Without the none-hidden condition a run ends in duplicates: (1,NULL) is inserted
      and deleted, (2,5) is inserted, and another user commits (1,5). */
  lemma {:induction false} NetNoOpDuplicates()
    ensures exists worlds, actors ::
              EndsInDuplicates(PAIR_CATALOG, worlds, actors, PairKey()) && LastHides(PairKey(), worlds, actors)
  {
    hide EncodeSlots, EndsInDuplicates, PairKey, LastBuffer, FreedOnce, LastHides, Storing;
    PairHasKey(1, Some(5));
    PairHasKey(1, None);
    PairHasKey(2, Some(5));
    PairRefsDiffer(1, 2);
    var worlds, actors := HiddenRowRun(PAIR_CATALOG, PairKey(), PairRef(1), PairRef(2), PairRow(1, Some(5)),
                                       PairRow(1, None),
                                       PairRow(2, Some(5)), EncodeSlots(true, [IntSlot(5)]));
    WhichFails(PAIR_CATALOG, worlds, actors, PairKey());
  }
}
