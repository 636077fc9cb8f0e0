/**
 * The persisted License record, its public JSON projection and the
 * issuer credential check.
 */
module Licenses {

  import opened Wrappers

  /** A timestamp column, kept abstract: the core does no time arithmetic. */
  type Timestamp = int

  /** One row of the license table (app.py:17-27). */
  datatype License = License(
    serial: string,                     // primary key
    key: string,                        // unique activation key
    productName: string,
    entityId: string,                   // the entity the license is bound to
    enabled: bool,
    numberOfSeats: int,
    expirationDate: Option<Timestamp>,
    isUpgrade: bool,
    upgradeFromSerial: Option<string>,
    date: Option<Timestamp>
  )

  /**
   * The integrity constraints the database enforces on the table: every row
   * is stored under its own serial (the primary key) and no two rows share
   * an activation key (the unique constraint on `key`).
   */
  ghost predicate WellFormed(db: map<string, License>)
    ensures WellFormed(db) ==> forall l :: l in db.Values ==> l.serial in db && db[l.serial] == l
    ensures WellFormed(db) ==> forall a, b :: a in db.Values && b in db.Values && a.key == b.key ==> a == b
  {
    && (forall s :: s in db ==> db[s].serial == s)
    && (forall s, t :: s in db && t in db && s != t ==> db[s].key != db[t].key)
  }

  /** The `edition` object of the public view. */
  const FullEdition: map<string, string> := map["en" := "Full Edition"]

  /** The dictionary a license is serialised to for clients. */
  datatype LicenseJson = LicenseJson(
    id: string,
    productName: string,
    entityId: string,
    numberOfSeats: int,
    edition: map<string, string>
  )

  /**
   * The public projection of a record: the serial is published as `id`,
   * the edition is always the English "Full Edition", and the key, the
   * enabled flag, the upgrade fields and the dates are not exposed.
   */
  function ToJsonDict(l: License): (j: LicenseJson)
    ensures j.id == l.serial
    ensures j.productName == l.productName && j.entityId == l.entityId
    ensures j.numberOfSeats == l.numberOfSeats
    ensures j.edition == FullEdition
  {
    LicenseJson(l.serial, l.productName, l.entityId, l.numberOfSeats, FullEdition)
  }

  /** Within a well-formed table the public view identifies the row. */
  lemma ViewIdentifiesRecord(db: map<string, License>, a: License, b: License)
    requires WellFormed(db)
    requires a in db.Values && b in db.Values
    requires ToJsonDict(a) == ToJsonDict(b)
    ensures a == b
  {
  }

  const IssuerId: string := "ISSUER_ID_HERE"
  const IssuerSecret: string := "ISSUER_SECRET_HERE"

  /** The issuer credential check: exactly one identity/secret pair passes. */
  function CheckAuth(issuerId: string, secret: string): (ok: bool)
    ensures ok ==> issuerId == IssuerId && secret == IssuerSecret
    ensures issuerId == IssuerId && secret == IssuerSecret ==> ok
  {
    issuerId == IssuerId && secret == IssuerSecret
  }
}
