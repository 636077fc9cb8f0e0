/**
 * The license store: the lookups of the `get_license` and `remove_license`
 * endpoints and the all-or-nothing removal of a license cluster.
 */
module Store {

  import opened Wrappers
  import opened Licenses

  /** One entry of the proposed cluster: the serial (`id`) and the product (`aud`). */
  datatype ClusterEntry = ClusterEntry(id: string, aud: string)

  /** What an endpoint answers: 200 with a body, or 400 with an error object. */
  datatype Response<T> =
    | Ok(body: T)
    | BadRequest(description: string, details: Option<string>)
  {
    function StatusCode(): (code: int)
      ensures code == 200 <==> Ok?
      ensures code == 400 <==> BadRequest?
    {
      if Ok? then 200 else 400
    }
  }

  const RemoveRefusedDescription: string :=
    "The license(s) cannot be currently be removed. Please contact "
    + "(Dolfinito®)[https://www.dolfinito.com/support] for assistance."
  const CountMismatch: string := "License key count mismatch"
  const InvalidKey: string := "The license key is not valid"

  /** The answer to a removal whose match count is neither zero nor complete. */
  const MismatchResponse: Response<()> :=
    BadRequest(RemoveRefusedDescription, Some(CountMismatch))

  // ---------------------------------------------------------------------
  // get_license
  // ---------------------------------------------------------------------

  /** The filter of the `get_license` query: activation key and product. */
  predicate HasKey(l: License, key: string, aud: string)
  {
    l.key == key && l.productName == aud
  }

  /**
   * The first row with the given key and product, if any. Because keys are
   * unique there is at most one such row, so "first" is well defined.
   */
  function FindByKey(db: map<string, License>, key: string, aud: string): (r: Option<License>)
    requires WellFormed(db)
    ensures r.Some? <==> exists l :: l in db.Values && HasKey(l, key, aud)
    ensures r.Some? ==> r.value in db.Values && HasKey(r.value, key, aud)
  {
    if exists s :: s in db && HasKey(db[s], key, aud) then
      var s :| s in db && HasKey(db[s], key, aud);
      Some(db[s])
    else
      None
  }

  /** The `get_license` endpoint: the public view of the row, or an error. */
  function GetLicense(db: map<string, License>, key: string, aud: string): (r: Response<LicenseJson>)
    requires WellFormed(db)
    ensures r.Ok? <==> exists l :: l in db.Values && HasKey(l, key, aud)
    ensures r.Ok? ==> exists l :: l in db.Values && HasKey(l, key, aud) && r.body == ToJsonDict(l)
    ensures r.BadRequest? ==> r == BadRequest(InvalidKey, None)
  {
    match FindByKey(db, key, aud)
    case Some(l) => Ok(ToJsonDict(l))
    case None => BadRequest(InvalidKey, None)
  }

  /**
   * Since activation keys are unique, the row with a given key and product
   * is the one `get_license` answers with, whichever row the query meets first.
   */
  lemma GetLicenseFindsRow(db: map<string, License>, l: License)
    requires WellFormed(db)
    requires l in db.Values
    ensures FindByKey(db, l.key, l.productName) == Some(l)
    ensures GetLicense(db, l.key, l.productName) == Ok(ToJsonDict(l))
  {
  }

  // ---------------------------------------------------------------------
  // remove_license: specification
  // ---------------------------------------------------------------------

  /** The filter of the `remove_license` query: serial, product and entity. */
  predicate MatchesEntry(l: License, entityId: string, e: ClusterEntry)
  {
    l.serial == e.id && l.productName == e.aud && l.entityId == entityId
  }

  /** The first row passing the removal filter for one proposal entry. */
  function Lookup(db: map<string, License>, entityId: string, e: ClusterEntry): (r: Option<License>)
    requires WellFormed(db)
    ensures r.Some? <==> exists l :: l in db.Values && MatchesEntry(l, entityId, e)
    ensures r.Some? ==> r.value in db.Values && MatchesEntry(r.value, entityId, e)
  {
    if e.id in db && MatchesEntry(db[e.id], entityId, e) then Some(db[e.id]) else None
  }

  /** The rows found for the proposal, in proposal order, one per matching entry. */
  function Matches(db: map<string, License>, entityId: string, proposal: seq<ClusterEntry>): (ms: seq<License>)
    requires WellFormed(db)
    ensures |ms| <= |proposal|
    ensures forall k :: 0 <= k < |ms| ==> ms[k] in db.Values && ms[k].entityId == entityId
    decreases |proposal|
  {
    if proposal == [] then []
    else
      var found := Matches(db, entityId, proposal[..|proposal| - 1]);
      match Lookup(db, entityId, proposal[|proposal| - 1])
      case Some(l) => found + [l]
      case None => found
  }

  /** The serials of a sequence of rows. */
  function Serials(ms: seq<License>): set<string>
  {
    set k | 0 <= k < |ms| :: ms[k].serial
  }

  /**
   * The acceptance rule: nothing matched, or every entry matched. In
   * particular a proposal of at most one license is never refused.
   */
  predicate Accepts(db: map<string, License>, entityId: string, proposal: seq<ClusterEntry>)
    requires WellFormed(db)
    ensures |proposal| <= 1 ==> Accepts(db, entityId, proposal)
  {
    var n := |Matches(db, entityId, proposal)|;
    n == 0 || n == |proposal|
  }

  /** The answer of `remove_license` on a given table. */
  function RemoveResponse(db: map<string, License>, entityId: string, proposal: seq<ClusterEntry>): (r: Response<()>)
    requires WellFormed(db)
    ensures r.Ok? <==> Accepts(db, entityId, proposal)
    ensures r.Ok? ==> r.body == ()
    ensures r.BadRequest? ==> r == MismatchResponse && r.StatusCode() == 400
  {
    if Accepts(db, entityId, proposal) then Ok(()) else MismatchResponse
  }

  /**
   * The table after `remove_license`: matched rows deleted when accepted.
   * Removal only ever deletes rows; it never alters or adds one.
   */
  function AfterRemoval(db: map<string, License>, entityId: string, proposal: seq<ClusterEntry>): (after: map<string, License>)
    requires WellFormed(db)
    ensures after.Keys <= db.Keys
    ensures forall s :: s in after ==> after[s] == db[s]
    ensures WellFormed(after)
    ensures !Accepts(db, entityId, proposal) ==> after == db
  {
    if Accepts(db, entityId, proposal) then db - Serials(Matches(db, entityId, proposal)) else db
  }

  // ---------------------------------------------------------------------
  // The store
  // ---------------------------------------------------------------------

  class LicenseStore {
    /** The license table, keyed by serial. */
    var licenses: map<string, License>

    ghost predicate Valid()
      reads this
    {
      WellFormed(licenses)
    }

    constructor (rows: map<string, License>)
      requires WellFormed(rows)
      ensures Valid() && licenses == rows
    {
      licenses := rows;
    }

    /**
     * The matching loop of `remove_license`: each entry is looked up in the
     * table, and every row found is collected, in proposal order.
     */
    method FindMatches(entityId: string, proposal: seq<ClusterEntry>) returns (found: seq<License>)
      requires Valid()
      ensures found == Matches(licenses, entityId, proposal)
    {
      found := [];
      var i := 0;
      while i < |proposal|
        invariant 0 <= i <= |proposal|
        invariant found == Matches(licenses, entityId, proposal[..i])
      {
        assert proposal[..i + 1][..i] == proposal[..i];
        var e := proposal[i];
        if e.id in licenses && MatchesEntry(licenses[e.id], entityId, e) {
          found := found + [licenses[e.id]];
        }
        i := i + 1;
      }
      assert proposal[..i] == proposal;
    }

    /** The deletion loop of `remove_license`: one row deleted per found record. */
    method DeleteAll(found: seq<License>)
      requires Valid()
      modifies this
      ensures Valid()
      ensures licenses == old(licenses) - Serials(found)
    {
      var j := 0;
      while j < |found|
        invariant 0 <= j <= |found|
        invariant licenses == old(licenses) - Serials(found[..j])
        invariant Valid()
      {
        assert Serials(found[..j + 1]) == Serials(found[..j]) + {found[j].serial} by {
          assert found[..j + 1] == found[..j] + [found[j]];
        }
        licenses := licenses - {found[j].serial};
        j := j + 1;
      }
      assert found[..j] == found;
    }

    /**
     * The `remove_license` endpoint. Every entry is looked up against the
     * table as it was on entry; only then, and only when the number of
     * matches is zero or the full proposal length, are the matched rows
     * deleted. Otherwise nothing changes.
     */
    method RemoveCluster(entityId: string, proposal: seq<ClusterEntry>) returns (r: Response<()>)
      requires Valid()
      modifies this
      ensures Valid()
      ensures r.Ok? <==> Accepts(old(licenses), entityId, proposal)
      ensures r == RemoveResponse(old(licenses), entityId, proposal)
      ensures licenses == AfterRemoval(old(licenses), entityId, proposal)
    {
      var found := FindMatches(entityId, proposal);
      if |found| == 0 || |found| == |proposal| {
        DeleteAll(found);
        r := Ok(());
      } else {
        r := MismatchResponse;
      }
    }
  }
}
