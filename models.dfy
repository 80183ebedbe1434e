/**
 * The record types of the persistence layer: a stored short URL and the
 * request that asks for one.
 */
module Models {
  import opened Wrappers

  /** Go's `uint64`. */
  type Uint64 = x: int | 0 <= x < 0x1_0000_0000_0000_0000

  /** An instant in milliseconds since the Unix epoch. The value 0 stands for
      Go's zero `time.Time` (year 1, not the epoch), which is what an omitted
      optional time becomes; so an expiry at exactly the epoch cannot be told
      apart from an omitted one. */
  type Instant = nat

  /** A stored short URL. `id` is the primary key, `clicks` an unsigned
      counter whose column default is 0. */
  datatype Url = Url(
    id: nat,
    longUrl: string,
    shortCode: string,
    clicks: Uint64,
    createdAt: Instant,
    expiresAt: Instant)

  /** A creation request. `customCode` and `expiresAt` are optional: an
      omitted one arrives as "" and 0, the zero values. */
  datatype CreateUrlRequest = CreateUrlRequest(
    longUrl: string,
    customCode: string,
    expiresAt: Instant)

  /** The table constraint on `short_code`: no two rows share a code. */
  ghost predicate UniqueShortCodes(rows: seq<Url>) {
    forall i, j | 0 <= i < j < |rows| :: rows[i].shortCode != rows[j].shortCode
  }

  predicate CodeTaken(rows: seq<Url>, code: string) {
    exists i | 0 <= i < |rows| :: rows[i].shortCode == code
  }

  datatype DbError = UniqueViolation

  /** An insert under the `unique` constraint on `short_code`: the database
      refuses a row whose code is already present and otherwise appends it. */
  function Insert(rows: seq<Url>, row: Url): (r: Result<seq<Url>, DbError>)
    ensures r.Failure? <==> CodeTaken(rows, row.shortCode)
    ensures r.Success? ==> |r.value| == |rows| + 1 && r.value[..|rows|] == rows && r.value[|rows|] == row
    ensures r.Success? && UniqueShortCodes(rows) ==> UniqueShortCodes(r.value)
  {
    if CodeTaken(rows, row.shortCode) then Failure(UniqueViolation) else Success(rows + [row])
  }
}
