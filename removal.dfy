/**
 * What the removal rule of `remove_license` guarantees, stated over the
 * specification functions of module Store.
 */
module RemovalProperties {

  import opened Wrappers
  import opened Licenses
  import opened Store

  /** Entry `i` of the proposal finds a row. */
  predicate EntryMatches(db: map<string, License>, entityId: string, proposal: seq<ClusterEntry>, i: int)
    requires WellFormed(db)
    requires 0 <= i < |proposal|
  {
    Lookup(db, entityId, proposal[i]).Some?
  }

  /** Some entry of the proposal names serial `s` and finds its row. */
  predicate MatchedBy(db: map<string, License>, entityId: string, proposal: seq<ClusterEntry>, s: string)
    requires WellFormed(db)
  {
    exists i :: 0 <= i < |proposal| && proposal[i].id == s && EntryMatches(db, entityId, proposal, i)
  }

  /** The match count equals the proposal length exactly when every entry finds a row. */
  lemma {:induction false} FullMatchIff(db: map<string, License>, entityId: string, proposal: seq<ClusterEntry>)
    requires WellFormed(db)
    ensures |Matches(db, entityId, proposal)| == |proposal|
            <==> forall i :: 0 <= i < |proposal| ==> EntryMatches(db, entityId, proposal, i)
  {
    if proposal != [] {
      var init := proposal[..|proposal| - 1];
      FullMatchIff(db, entityId, init);
      forall i | 0 <= i < |init|
        ensures EntryMatches(db, entityId, init, i) == EntryMatches(db, entityId, proposal, i)
      {
        assert init[i] == proposal[i];
      }
      assert EntryMatches(db, entityId, proposal, |init|) == Lookup(db, entityId, proposal[|init|]).Some?;
    }
  }

  /** The match count is zero exactly when no entry finds a row. */
  lemma {:induction false} NoMatchIff(db: map<string, License>, entityId: string, proposal: seq<ClusterEntry>)
    requires WellFormed(db)
    ensures |Matches(db, entityId, proposal)| == 0
            <==> forall i :: 0 <= i < |proposal| ==> !EntryMatches(db, entityId, proposal, i)
  {
    if proposal != [] {
      var init := proposal[..|proposal| - 1];
      NoMatchIff(db, entityId, init);
      forall i | 0 <= i < |init|
        ensures EntryMatches(db, entityId, init, i) == EntryMatches(db, entityId, proposal, i)
      {
        assert init[i] == proposal[i];
      }
      assert EntryMatches(db, entityId, proposal, |init|) == Lookup(db, entityId, proposal[|init|]).Some?;
    }
  }

  /** Appending a row to a sequence adds its serial to the serials. */
  lemma SerialsSnoc(ms: seq<License>, l: License)
    ensures Serials(ms + [l]) == Serials(ms) + {l.serial}
  {
    var all := ms + [l];
    forall k | 0 <= k < |all| ensures all[k].serial in Serials(ms) + {l.serial} {
      if k < |ms| { assert all[k] == ms[k]; }
    }
    forall t | t in Serials(ms) ensures t in Serials(all) {
      var k :| 0 <= k < |ms| && ms[k].serial == t;
      assert all[k] == ms[k];
    }
    assert all[|ms|] == l;
  }

  /** A serial is matched by a proposal iff by its prefix or by its last entry. */
  lemma MatchedBySnoc(db: map<string, License>, entityId: string, proposal: seq<ClusterEntry>, s: string)
    requires WellFormed(db)
    requires proposal != []
    ensures var n := |proposal| - 1;
            MatchedBy(db, entityId, proposal, s)
            <==> (MatchedBy(db, entityId, proposal[..n], s)
                  || (proposal[n].id == s && EntryMatches(db, entityId, proposal, n)))
  {
  }

  /** The serials collected are exactly those of the entries that find a row. */
  lemma {:induction false} MatchedSerialsIff(db: map<string, License>, entityId: string, proposal: seq<ClusterEntry>, s: string)
    requires WellFormed(db)
    ensures s in Serials(Matches(db, entityId, proposal)) <==> MatchedBy(db, entityId, proposal, s)
  {
    if proposal != [] {
      var n := |proposal| - 1;
      MatchedSerialsIff(db, entityId, proposal[..n], s);
      MatchedBySnoc(db, entityId, proposal, s);
      match Lookup(db, entityId, proposal[n])
      case None =>
      case Some(l) =>
        SerialsSnoc(Matches(db, entityId, proposal[..n]), l);
    }
  }

  /**
   * The acceptance rule in terms of entries: a proposal is accepted exactly
   * when every entry finds a row or none does.
   */
  lemma AcceptsIff(db: map<string, License>, entityId: string, proposal: seq<ClusterEntry>)
    requires WellFormed(db)
    ensures Accepts(db, entityId, proposal)
            <==> ((forall i :: 0 <= i < |proposal| ==> EntryMatches(db, entityId, proposal, i))
                  || (forall i :: 0 <= i < |proposal| ==> !EntryMatches(db, entityId, proposal, i)))
  {
    FullMatchIff(db, entityId, proposal);
    NoMatchIff(db, entityId, proposal);
  }

  /**
   * A partial match, where some entry finds its row and another does not, is
   * refused with the count-mismatch error and leaves the table as it was.
   */
  lemma PartialMatchRejected(db: map<string, License>, entityId: string, proposal: seq<ClusterEntry>, i: int, j: int)
    requires WellFormed(db)
    requires 0 <= i < |proposal| && 0 <= j < |proposal|
    requires EntryMatches(db, entityId, proposal, i) && !EntryMatches(db, entityId, proposal, j)
    ensures RemoveResponse(db, entityId, proposal) == MismatchResponse
    ensures RemoveResponse(db, entityId, proposal).StatusCode() == 400
    ensures AfterRemoval(db, entityId, proposal) == db
  {
    AcceptsIff(db, entityId, proposal);
  }

  /** A proposal none of whose entries finds a row succeeds and changes nothing. */
  lemma NoMatchIsNoOp(db: map<string, License>, entityId: string, proposal: seq<ClusterEntry>)
    requires WellFormed(db)
    requires forall i :: 0 <= i < |proposal| ==> !EntryMatches(db, entityId, proposal, i)
    ensures RemoveResponse(db, entityId, proposal) == Ok(())
    ensures AfterRemoval(db, entityId, proposal) == db
  {
    NoMatchIff(db, entityId, proposal);
    assert Serials(Matches(db, entityId, proposal)) == {};
  }

  /**
   * After an accepted removal, a row is left exactly when it was there and no
   * entry matched it, and every row left is unchanged.
   */
  lemma AcceptedRemovalEffect(db: map<string, License>, entityId: string, proposal: seq<ClusterEntry>, s: string)
    requires WellFormed(db)
    requires Accepts(db, entityId, proposal)
    ensures s in AfterRemoval(db, entityId, proposal) <==> s in db && !MatchedBy(db, entityId, proposal, s)
    ensures s in AfterRemoval(db, entityId, proposal) ==> AfterRemoval(db, entityId, proposal)[s] == db[s]
  {
    MatchedSerialsIff(db, entityId, proposal, s);
  }

  /** Every row some entry matched is gone after an accepted removal. */
  lemma MatchedRowsDeleted(db: map<string, License>, entityId: string, proposal: seq<ClusterEntry>, i: int)
    requires WellFormed(db)
    requires Accepts(db, entityId, proposal)
    requires 0 <= i < |proposal| && EntryMatches(db, entityId, proposal, i)
    ensures proposal[i].id in db
    ensures proposal[i].id !in AfterRemoval(db, entityId, proposal)
  {
    AcceptedRemovalEffect(db, entityId, proposal, proposal[i].id);
  }

  /**
   * Repeating an accepted removal on the table it produced finds nothing,
   * so it succeeds again and changes nothing.
   */
  lemma RemovalIdempotent(db: map<string, License>, entityId: string, proposal: seq<ClusterEntry>)
    requires WellFormed(db)
    requires Accepts(db, entityId, proposal)
    ensures WellFormed(AfterRemoval(db, entityId, proposal))
    ensures RemoveResponse(AfterRemoval(db, entityId, proposal), entityId, proposal) == Ok(())
    ensures AfterRemoval(AfterRemoval(db, entityId, proposal), entityId, proposal)
            == AfterRemoval(db, entityId, proposal)
  {
    var db' := AfterRemoval(db, entityId, proposal);
    forall i | 0 <= i < |proposal| ensures !EntryMatches(db', entityId, proposal, i) {
      var e := proposal[i];
      AcceptedRemovalEffect(db, entityId, proposal, e.id);
      if EntryMatches(db', entityId, proposal, i) {
        // The row is still there, so no entry matched it before; yet it
        // would have matched entry i in the original table.
        assert e.id in db' && db'[e.id] == db[e.id];
        assert EntryMatches(db, entityId, proposal, i);
        assert false;
      }
    }
    NoMatchIsNoOp(db', entityId, proposal);
  }

  /**
   * Matching reads the table as it was before any deletion: an entry listed
   * twice finds its row twice, so the doubled proposal is accepted and the
   * row is deleted.
   */
  lemma DuplicateEntryMatchesTwice(db: map<string, License>, entityId: string, e: ClusterEntry)
    requires WellFormed(db)
    requires Lookup(db, entityId, e).Some?
    ensures |Matches(db, entityId, [e, e])| == 2
    ensures RemoveResponse(db, entityId, [e, e]) == Ok(())
    ensures e.id !in AfterRemoval(db, entityId, [e, e])
  {
    assert [e, e][..1] == [e];
    assert [e][..0] == [];
    MatchedRowsDeleted(db, entityId, [e, e], 0);
  }
}
