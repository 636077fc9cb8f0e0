# License store of the Cloud Zoo issuer

A Dafny model of the license issuer backend in `app.py`: the `License`
table, its public JSON projection, the issuer credential check, the
`get_license` lookup and the cluster-removal rule of `remove_license`.

- `wrappers.dfy` — `Option`.
- `licenses.dfy` (module `Licenses`) — the `License` record
  (app.py:17-27), the table's integrity constraints as `WellFormed` (rows
  stored under their serial, the primary key; activation keys unique), the
  public view `ToJsonDict` and `CheckAuth`.
- `store.dfy` (module `Store`) — the request results (`Response`: 200 with
  a body or 400 with a description and optional details), the two queries
  (`FindByKey` for `get_license`, `Lookup` for one removal entry), the
  specification of removal (`Matches`, `Accepts`, `RemoveResponse`,
  `AfterRemoval`) and the class `LicenseStore`, whose `licenses` map field
  is the table. Its method `RemoveCluster` runs the source's two loops:
  `FindMatches` collects, against the unchanged table, the row each
  proposal entry finds; then, only if the number of rows found is zero or
  the proposal's length, `DeleteAll` deletes each of them. Otherwise the
  answer is the 400 "License key count mismatch" error and the table is
  untouched.
- `removal.dfy` (module `RemovalProperties`) — what the rule guarantees:
  acceptance in terms of entries (all match or none does), partial matches
  refused without change, matched rows gone and all others unchanged after
  acceptance, idempotence of a repeated removal, and matching against the
  table as it was before any deletion.

## Reading of the source

- Removal deletes the matched rows (app.py:144). The test at
  tests.py:154-156 expects the row to survive with its `entity_id` cleared.
  The model follows the code: after an accepted removal the row is absent
  (`AcceptedRemovalEffect`, `MatchedRowsDeleted`), so the test's
  expectation does not hold of the code as written.
- The queries are written `License.query()` (app.py:131, 164), calling the
  query object, and the removal filter uses the keyword `entityId=`
  (app.py:134), which names no column. The model takes the evident
  reading: a query over the table filtered on serial, `product_name` and
  the `entity_id` column.
- `entity_id` is declared non-nullable (app.py:21) and is modelled as a
  string; an unbound license is not representable in this table, as
  declared.
- Because `serial` is the primary key (app.py:18), the removal query finds
  at most one row per entry, so `.first()` is deterministic; the same holds
  for `get_license` because `key` is unique (app.py:19).
- A proposal that lists the same entry twice counts its row twice: the
  count is taken over entries, against the table before deletion.

## Model

| member | source | states |
|---|---|---|
| `Licenses.WellFormed` | app.py:18-19 | the table's constraints: a row's serial locates it (primary key), and two rows with the same activation key are the same row (unique key) |
| `Licenses.ToJsonDict` | app.py:29-37 | the view publishes the serial as `id`, the product name, the entity and the seat count, and its edition is always `{"en": "Full Edition"}` |
| `Licenses.ViewIdentifiesRecord` | app.py:18-31 | in a table whose primary key is the serial, two rows with the same public view are the same row |
| `Licenses.CheckAuth` | app.py:78-82 | a credential passes exactly when the identity is `ISSUER_ID_HERE` and the secret is `ISSUER_SECRET_HERE` |
| `Store.Response.StatusCode` | app.py:147-155 | a successful answer carries status 200, an error answer status 400 |
| `Store.FindByKey` | app.py:164 | finds a row iff some row has the given key and product name, and the row it finds has both |
| `Store.GetLicense` | app.py:157-172 | answers with the public view of a row with that key and product name, or with the "The license key is not valid" error exactly when there is none |
| `Store.GetLicenseFindsRow` | app.py:164-172 | because keys are unique, looking up a row's own key and product always answers with that row's view |
| `Store.Lookup` | app.py:131-135 | a proposal entry finds a row iff some row's serial, product name and entity id equal the entry's `id`, the entry's `aud` and the request's entity id |
| `Store.Matches` | app.py:128-138 | at most one row is collected per entry, and each collected row is in the table and bound to the requesting entity |
| `Store.Accepts` | app.py:140 | the acceptance test: the number of rows found is zero or the proposal's length; so a proposal of at most one license is never refused |
| `Store.RemoveResponse` | app.py:140-155 | the answer is the empty 200 success exactly when the proposal is accepted, and otherwise the 400 answer with the "License key count mismatch" details |
| `Store.AfterRemoval` | app.py:140-147 | the table after the call: removal only deletes rows, never alters or adds one, keeps the table's constraints, and leaves a refused proposal's table as it was |
| `Store.LicenseStore.FindMatches` | app.py:128-138 | the matching loop collects, in order and without changing the table, exactly the rows the entries find |
| `Store.LicenseStore.DeleteAll` | app.py:143-146 | the deletion loop removes exactly the rows whose serials were collected and keeps the table's constraints |
| `Store.LicenseStore.RemoveCluster` | app.py:121-155 | succeeds iff the number of rows found in the table on entry is zero or the proposal's length; then the table loses exactly those rows, otherwise it is unchanged and the answer is the count-mismatch error |
| `RemovalProperties.FullMatchIff` | app.py:140 | the count of rows found equals the proposal's length iff every entry finds a row |
| `RemovalProperties.NoMatchIff` | app.py:140 | the count of rows found is zero iff no entry finds a row |
| `RemovalProperties.MatchedSerialsIff` | app.py:130-144 | the serials deleted on acceptance are exactly the `id`s of the entries that find a row |
| `RemovalProperties.AcceptsIff` | app.py:140-155 | a removal is accepted iff all entries find a row or none does |
| `RemovalProperties.PartialMatchRejected` | app.py:148-155 | when one entry finds a row and another does not, the answer is the 400 "License key count mismatch" error and the table is unchanged |
| `RemovalProperties.NoMatchIsNoOp` | app.py:140-147 | a proposal no entry of which finds a row succeeds and leaves the table unchanged |
| `RemovalProperties.AcceptedRemovalEffect` | app.py:143-146 | after an accepted removal a serial is in the table iff it was there and no entry matched it, and every remaining row is unchanged |
| `RemovalProperties.MatchedRowsDeleted` | app.py:143-144 | after an accepted removal every row some entry matched is absent from the table |
| `RemovalProperties.RemovalIdempotent` | app.py:140-147 | repeating an accepted removal on its result finds nothing, succeeds and leaves the table as the first removal did |
| `RemovalProperties.DuplicateEntryMatchesTwice` | app.py:130-144 | matching reads the table before deletion, so an entry listed twice finds its row twice and the doubled proposal is accepted and deletes it |

## Left out

- Flask routing, request parsing (`request.get_json`, query arguments), `jsonify` and `Response` construction: a request becomes method arguments and the answer the `Response` datatype. A removal payload missing `licenseCluster`, `licenses`, or an entry's `id` or `aud` raises in the source and is not modelled; nor is one missing `entityId`, which raises only when the proposal is non-empty (app.py:134), an empty proposal still answering 200. A `get_license` request missing its `key` or `aud` argument is not modelled either: the source then filters on a null value and answers the 400 "The license key is not valid" error (app.py:161-170), whereas the model takes both arguments as strings.
- The database session and transactions: the table is the `licenses` map field of `LicenseStore`; `commit` is the end of `RemoveCluster`.
- The `create_db` seed command (app.py:42-72): fixture data, not behaviour.
- The `requires_auth` decorator and the 401 answer of `authenticate` (app.py:84-98): request middleware; only the `CheckAuth` predicate is modelled.
- `add_license` and `get_products` (app.py:114-119, 175-179): their bodies are empty, so there is no behaviour to model; no activation or upgrade-chain rule is invented.
- `hello` and `info` (app.py:104-111): constant and counting pages with no decision logic.
- `Licenses.ToJsonDict`: the `exp` entry of the view (always the placeholder text "TODO!!!") is not part of the modelled view.
- Timestamps (`expiration_date`, `date`) are opaque integers; no time handling is modelled.
- `__repr__` (app.py:39-40): debugging output.
