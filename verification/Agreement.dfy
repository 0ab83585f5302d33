/** Whole runs with the derived keyspace beside the committed rows.  */
module Agreement {
  import opened Hashing
  import opened KeyCodec
  import opened Tables
  import opened Keyspaces
  import opened Derived
  import opened SqlStorage
  import opened Transactions
  import opened Sessions
  import opened Editors
  import opened PairTable

  /** A session step that leaves the ledger alone. */
  ghost predicate Quiet(cat: Catalog, w: World, w': World, s: nat, keys: seq<UniqueKey>)
  {
    || Begin(w, w', s)
    || Edit(cat, w, w', s, keys)
    || Discard(w, w', s)
    || Close(w, w', s)
    || SavepointStep(w, w', s)
    || Rollback(w, w', s)
    || CommitRefused(w, w', s)
  }

  /** Another commit of the store: it makes its changes whatever they were based on,
      and writes their entries and the marker in one batch. */
  ghost predicate OtherWrites(cat: Catalog, w: World, w': World, changes: seq<Change>, m: KeySpace, m': KeySpace)
  {
    GoodBatch(cat, changes) && w'.rows == ChangedAll(w.rows, changes) &&
    m' == Run(m, BatchScanOps(cat, changes) + [Marker(w'.version)])
  }

  /** One step of a run together with the changes it commits and what it does to the
      derived keyspace. */
  ghost predicate Advance(cat: Catalog, w: World, m: KeySpace, w': World, m': KeySpace, changes: seq<Change>, s: nat,
                          keys: seq<UniqueKey>)
  {
    || (Quiet(cat, w, w', s, keys) && changes == [] && m' == m)
    || (Commit(w, w', s, keys) && WroteBatch(cat, w.sessions[s].txn.rows, changes, w'.version, m, m'))
    || (Elsewhere(cat, w, w') && OtherWrites(cat, w, w', changes, m, m'))
  }

  /** A run with the keyspace and the committed changes of each step, from a database
      whose keyspace agrees. */
  ghost predicate KeyspaceRun(cat: Catalog, worlds: seq<World>, spaces: seq<KeySpace>, batches: seq<seq<Change>>,
                              actors: seq<nat>, keys: seq<UniqueKey>)
  {
    |worlds| > 0 && |actors| == |spaces| == |batches| == |worlds| &&
    worlds[0].sessions == map[] && GoodRows(cat, worlds[0].rows) && Agrees(cat, worlds[0], spaces[0]) &&
    forall i {:trigger worlds[i]} :: 0 < i < |worlds| ==>
      Advance(cat, worlds[i - 1], spaces[i - 1], worlds[i], spaces[i], batches[i], actors[i], keys)
  }

  /** The keyspace holds exactly the entries of the committed rows, and its marker
      names the committed version; version 0 needs none. */
  ghost predicate Agrees(cat: Catalog, w: World, m: KeySpace)
  {
    Exact(cat, w.rows, m) &&
    (Lookup(m, [META_KEY]) == Some(BigEndian(w.version, 8)) || (w.version == 0 && [META_KEY] !in m))
  }

  // ------------------------------------------------------------------- steps

  lemma {:induction false} AdvanceIsNext(cat: Catalog, w: World, m: KeySpace, w': World, m': KeySpace,
                                         changes: seq<Change>, s: nat, keys: seq<UniqueKey>)
    requires Advance(cat, w, m, w', m', changes, s, keys)
    ensures Transactions.Next(cat, w, w', s, keys)
  {
    hide Begin, Edit, Discard, Close, SavepointStep, Rollback, CommitRefused, Elsewhere, WroteBatch, OtherWrites,
         Validated, AllRevalidated, Applied, LedgerMoves;
  }

  lemma {:induction false} RunInterleaves(cat: Catalog, worlds: seq<World>, spaces: seq<KeySpace>,
                                          batches: seq<seq<Change>>, actors: seq<nat>, keys: seq<UniqueKey>)
    requires KeyspaceRun(cat, worlds, spaces, batches, actors, keys)
    ensures Interleaving(cat, worlds, actors, keys)
  {
    hide Advance, GoodRows, Transactions.Next, Agrees;
    forall i | 0 < i < |worlds| ensures Transactions.Next(cat, worlds[i - 1], worlds[i], actors[i], keys) {
      AdvanceIsNext(cat, worlds[i - 1], spaces[i - 1], worlds[i], spaces[i], batches[i], actors[i], keys);
    }
  }

  /** What the commit of a write-set leaves behind, when the keyspace answered its
      re-checks rightly, is a commit step of such a run. */
  lemma {:induction false} CommitAdvances(cat: Catalog, w: World, m: KeySpace, w': World, m': KeySpace,
                                          changes: seq<Change>, s: nat, keys: seq<UniqueKey>)
    requires UniqueKeysOf(cat, keys) && Running(w, s) && w.sessions[s].stmt == map[]
    requires w'.sessions == w.sessions[s := Idle]
    requires Moved(w.rows, w.version, w.sessions[s].txn.rows, w'.rows, w'.version)
    requires w.version != w.sessions[s].txn.base ==>
               Validated(w.rows, w.sessions[s].txn.rows) && UniquePassed(cat, w.rows, w.sessions[s].txn.rows)
    requires WroteBatch(cat, w.sessions[s].txn.rows, changes, w'.version, m, m')
    ensures Advance(cat, w, m, w', m', changes, s, keys)
  {
    hide Quiet, Elsewhere, OtherWrites, WroteBatch, Validated, UniquePassed, UniqueKeysOf, Applied, LedgerMoves, Commit,
         Moved;
    CommitIsStep(cat, w, w', s, keys);
  }

  /** What a statement outside a transaction leaves behind is another commit of such a run. */
  lemma {:induction false} DirectAdvances(cat: Catalog, w: World, m: KeySpace, w': World, m': KeySpace,
                                          pending: Buffer, changes: seq<Change>, s: nat, keys: seq<UniqueKey>)
    requires w'.sessions == w.sessions && GoodRows(cat, w'.rows)
    requires Moved(w.rows, w.version, pending, w'.rows, w'.version)
    requires WroteDirectly(cat, w.rows, pending, changes, w'.version, m, m')
    ensures Advance(cat, w, m, w', m', changes, s, keys) && Elsewhere(cat, w, w')
  {
    hide Quiet, Commit, WroteBatch, Gathered, GoodBatch, Applied, ChangedAll, Run, BatchScanOps, GoodRows;
  }

  lemma {:induction false} QuietKeeps(cat: Catalog, w: World, w': World, s: nat, keys: seq<UniqueKey>)
    requires Quiet(cat, w, w', s, keys)
    ensures w'.rows == w.rows && w'.version == w.version
  {
    hide Edits, Folded, SavepointMove;
  }

  lemma {:induction false} NoChanges(cat: Catalog, db: Database)
    ensures ChangedAll(db, []) == db && RetractsAll(cat, db, [])
  {
  }

  /** A session's commit accounts for every entry of the rows it replaces. */
  lemma {:induction false} CommitRetracts(cat: Catalog, db: Database, buf: Buffer, changes: seq<Change>)
    requires Gathered(cat, buf, {}, changes) && EffectiveBased(db, buf)
    ensures RetractsAll(cat, db, changes)
  {
    hide GoodBatch, RetractsAll;
    forall i | 0 <= i < |changes| ensures Lookup(db, changes[i].ref) == changes[i].row.prior {
      assert buf[changes[i].ref] == changes[i].row;
    }
    BasedRetracts(cat, db, changes);
  }

  lemma {:induction false} MarkedBatch(cat: Catalog, db: Database, m: KeySpace, changes: seq<Change>, version: nat)
    requires WellCatalogued(cat) && GoodBatch(cat, changes) && Exact(cat, db, m)
    ensures var m' := Run(m, BatchScanOps(cat, changes) + [Marker(version)]);
            Lookup(m', [META_KEY]) == Some(BigEndian(version, 8)) &&
            (Exact(cat, ChangedAll(db, changes), m') <==> RetractsAll(cat, db, changes))
  {
    hide Exact, Run, BatchScanOps, WellCatalogued, ChangedAll, GoodBatch, RetractsAll, BigEndian;
    DirectExactIff(cat, db, m, changes, version);
    MarkedLast(m, BatchScanOps(cat, changes), version);
  }

  /** From agreement, a step leads to agreement if and only if its changes account for
      every entry of the rows they replace. */
  lemma {:induction false} StepAgreesIff(cat: Catalog, w: World, m: KeySpace, w': World, m': KeySpace,
                                         changes: seq<Change>, s: nat, keys: seq<UniqueKey>)
    requires WellCatalogued(cat) && Agrees(cat, w, m) && Advance(cat, w, m, w', m', changes, s, keys)
    ensures Agrees(cat, w', m') <==> RetractsAll(cat, w.rows, changes)
  {
    hide Exact, Run, BatchScanOps, Gathered, GoodBatch, WellCatalogued, Applied, Validated, AllRevalidated, ChangedAll,
         BigEndian, RetractsAll, Quiet, GoodRows;
    if Quiet(cat, w, w', s, keys) && changes == [] && m' == m {
      QuietKeeps(cat, w, w', s, keys);
      NoChanges(cat, w.rows);
    } else {
      if Commit(w, w', s, keys) && WroteBatch(cat, w.sessions[s].txn.rows, changes, w'.version, m, m') {
        GatheredApplies(cat, w.rows, w.sessions[s].txn.rows, changes);
      }
      assert w'.rows == ChangedAll(w.rows, changes);
      if changes == [] {
        NoChanges(cat, w.rows);
      }
      MarkedBatch(cat, w.rows, m, changes, w'.version);
    }
  }

  // ---------------------------------------------------------------- whole runs

  /** Every step up to n accounts for the entries of the rows it replaces. */
  ghost predicate AllRetract(cat: Catalog, worlds: seq<World>, batches: seq<seq<Change>>, n: nat)
    requires |batches| == |worlds| && n < |worlds|
  {
    forall i {:trigger batches[i]} :: 0 < i <= n ==> RetractsAll(cat, worlds[i - 1].rows, batches[i])
  }

  ghost predicate AllAgree(cat: Catalog, worlds: seq<World>, spaces: seq<KeySpace>, n: nat)
    requires |spaces| == |worlds| && n < |worlds|
  {
    forall i {:trigger spaces[i]} :: 0 <= i <= n ==> Agrees(cat, worlds[i], spaces[i])
  }

  /** Over any run the keyspace agrees with the committed rows at every step so far if
      and only if every commit so far accounted for the entries of the rows it found. */
  lemma {:induction false} KeyspaceAgreesIff(cat: Catalog, worlds: seq<World>, spaces: seq<KeySpace>,
                                             batches: seq<seq<Change>>, actors: seq<nat>, keys: seq<UniqueKey>, n: nat)
    requires WellCatalogued(cat) && KeyspaceRun(cat, worlds, spaces, batches, actors, keys) && n < |worlds|
    ensures AllAgree(cat, worlds, spaces, n) <==> AllRetract(cat, worlds, batches, n)
    decreases n
  {
    hide GoodRows, WellCatalogued, Agrees, Advance, RetractsAll;
    if n > 0 {
      KeyspaceAgreesIff(cat, worlds, spaces, batches, actors, keys, n - 1);
      assert Advance(cat, worlds[n - 1], spaces[n - 1], worlds[n], spaces[n], batches[n], actors[n], keys);
      if AllAgree(cat, worlds, spaces, n - 1) {
        assert spaces[n - 1] == spaces[n - 1];
        StepAgreesIff(cat, worlds[n - 1], spaces[n - 1], worlds[n], spaces[n], batches[n], actors[n], keys);
        assert spaces[n] == spaces[n] && batches[n] == batches[n];
      }
    }
  }

  /** A session's commit ends its transaction, so it is never one of the other commits. */
  lemma {:induction false} CommitIsOwn(cat: Catalog, w: World, w': World, s: nat, keys: seq<UniqueKey>)
    requires Commit(w, w', s, keys)
    ensures !Elsewhere(cat, w, w')
  {
    hide GoodRows, Validated, AllRevalidated, Applied, LedgerMoves, VersionTells;
    assert w'.sessions[s] == Idle != w.sessions[s];
  }

  /** A step that is not another commit accounts for the entries of the rows it finds. */
  lemma {:induction false} SessionRetracts(cat: Catalog, worlds: seq<World>, spaces: seq<KeySpace>,
                                           batches: seq<seq<Change>>, actors: seq<nat>, keys: seq<UniqueKey>, i: nat)
    requires KeyspaceRun(cat, worlds, spaces, batches, actors, keys) && 0 < i < |worlds|
    requires !Elsewhere(cat, worlds[i - 1], worlds[i])
    ensures RetractsAll(cat, worlds[i - 1].rows, batches[i])
  {
    hide GoodRows, Agrees, Quiet, Elsewhere, OtherWrites, EffectiveBased, Validated, AllRevalidated, Applied,
         RetractsAll, Gathered, Run;
    var w, w' := worlds[i - 1], worlds[i];
    assert Advance(cat, w, spaces[i - 1], w', spaces[i], batches[i], actors[i], keys);
    if Quiet(cat, w, w', actors[i], keys) && batches[i] == [] {
      NoChanges(cat, w.rows);
    } else {
      RunInterleaves(cat, worlds, spaces, batches, actors, keys);
      CommitsBased(cat, worlds, actors, keys, i);
      CommitRetracts(cat, w.rows, w.sessions[actors[i]].txn.rows, batches[i]);
    }
  }

  /** So whatever sessions do, the keyspace agrees after every step, provided every
      other commit accounts for the entries of the rows it finds committed. */
  lemma {:induction false} KeyspaceAlwaysAgrees(cat: Catalog, worlds: seq<World>, spaces: seq<KeySpace>,
                                                batches: seq<seq<Change>>, actors: seq<nat>, keys: seq<UniqueKey>,
                                                n: nat)
    requires WellCatalogued(cat) && KeyspaceRun(cat, worlds, spaces, batches, actors, keys) && n < |worlds|
    requires forall i {:trigger batches[i]} ::
               0 < i <= n && Elsewhere(cat, worlds[i - 1], worlds[i]) ==>
               RetractsAll(cat, worlds[i - 1].rows, batches[i])
    ensures Agrees(cat, worlds[n], spaces[n])
  {
    hide GoodRows, WellCatalogued, Agrees, Advance, RetractsAll, Elsewhere;
    forall i | 0 < i <= n ensures RetractsAll(cat, worlds[i - 1].rows, batches[i]) {
      if !Elsewhere(cat, worlds[i - 1], worlds[i]) {
        SessionRetracts(cat, worlds, spaces, batches, actors, keys, i);
      }
    }
    KeyspaceAgreesIff(cat, worlds, spaces, batches, actors, keys, n);
    assert spaces[n] == spaces[n];
  }

  /** A store reopened where the keyspace agrees has nothing to reconcile. */
  lemma {:induction false} NothingToReconcile(cat: Catalog, w: World, m: KeySpace)
    requires Agrees(cat, w, m) && w.version < TWO_64
    ensures AppliedVersion(m) == w.version
  {
    hide Exact;
    if [META_KEY] in m {
      MarkerReads(m, w.version);
    }
  }

  // ---------------------------------------------------------- concrete inputs

  /** The write of a statement that read (1,5) and makes it (1,7). */
  ghost function StaleUpdate(): Change
  {
    Change(PairRef(1), Pending(Some(PairRow(1, Some(5))), Some(PairRow(1, Some(7)))))
  }

  ghost function PairEntry(value: Int64): ByteString
  {
    IndexKey(PAIR_DEF.indexes[0], PairRow(1, Some(value)), PairRef(1).pk)
  }

  lemma {:induction false} PairOwns(value: Int64, k: ByteString)
    ensures Owns(PAIR_CATALOG, PairRef(1), PairRow(1, Some(value)), k) <==>
            k == ScanKey(PAIRS, PairRef(1).pk) || k == PairEntry(value)
  {
    hide EncodeSlots, BigEndian, WellCatalogued, ScanKey, IndexKey;
    PairStored(1, Some(value));
    assert PAIR_CATALOG[PAIRS] == PAIR_DEF && |PAIR_DEF.indexes| == 1;
    if k == PairEntry(value) {
      assert IndexEntry(PAIR_CATALOG[PAIRS], 0, PairRow(1, Some(value)), PairRef(1).pk, k);
    }
  }

  lemma {:induction false} PairEntriesDiffer(a: Int64, b: Int64)
    requires a != b
    ensures PairEntry(a) != PairEntry(b) && PairEntry(a) != ScanKey(PAIRS, PairRef(1).pk)
  {
    hide EncodeSlots, BigEndian, IndexKey, ScanKey, WellCatalogued;
    PairStored(1, Some(a));
    PairStored(1, Some(b));
    var x, y := PairRow(1, Some(a)), PairRow(1, Some(b));
    KeyTags(PAIRS, PairRef(1).pk, PAIR_DEF.indexes[0], x);
    if PairEntry(a) == PairEntry(b) {
      IndexKeyInjective(PAIR_DEF, PAIR_DEF.indexes[0], x, y, PairRef(1).pk, PairRef(1).pk);
    }
  }

  /** Direct statements do break agreement: one read (1,5), another commit made the row
      (1,6), and the first writes (1,7).  The index entry of 6 stays. */
  lemma {:induction false} StaleDirectUpdate(m: KeySpace, version: nat)
    requires Exact(PAIR_CATALOG, map[PairRef(1) := PairRow(1, Some(6))], m)
    ensures GoodBatch(PAIR_CATALOG, [StaleUpdate()])
    ensures ChangedAll(map[PairRef(1) := PairRow(1, Some(6))], [StaleUpdate()]) ==
            map[PairRef(1) := PairRow(1, Some(7))]
    ensures var m' := Run(m, BatchScanOps(PAIR_CATALOG, [StaleUpdate()]) + [Marker(version)]);
            Lookup(m', PairEntry(6)) == Some(PairRef(1).pk) &&
            !Exact(PAIR_CATALOG, map[PairRef(1) := PairRow(1, Some(7))], m')
  {
    hide EncodeSlots, BigEndian, IndexKey, ScanKey, WellCatalogued, Exact, Run, BatchScanOps, Owns, ChangedAll,
         Expected;
    var cat, db, c, k := PAIR_CATALOG, map[PairRef(1) := PairRow(1, Some(6))], StaleUpdate(), PairEntry(6);
    PairCatalogGood();
    PairStored(1, Some(5));
    PairStored(1, Some(6));
    PairStored(1, Some(7));
    assert [c][0] == c;
    assert GoodBatch(cat, [c]);
    PairOwns(5, k);
    PairOwns(6, k);
    PairOwns(7, k);
    PairEntriesDiffer(6, 5);
    PairEntriesDiffer(6, 7);
    assert !Adds(cat, c, k) && !Drops(cat, c, k);
    OneChange(db, c);
    MarkedBatch(cat, db, m, [c], version);
    assert !Retracts(cat, db, c);
    BatchEffect(cat, m, [c], k);
    ExpectedOwner(cat, db, PairRef(1), k);
    KeyTags(PAIRS, PairRef(1).pk, PAIR_DEF.indexes[0], PairRow(1, Some(6)));
    ExactAt(cat, db, m, k);
    MarkerElsewhere(m, BatchScanOps(cat, [c]), version, k);
  }

  lemma {:induction false} MarkerElsewhere(m: KeySpace, ops: seq<ScanOp>, version: nat, k: ByteString)
    requires k != [META_KEY]
    ensures Lookup(Run(m, ops + [Marker(version)]), k) == Lookup(Run(m, ops), k)
  {
    hide Run, BigEndian;
    RunConcat(m, ops, [Marker(version)]);
    OneOp(Run(m, ops), Marker(version), k);
  }
}
