/**
 * Values shared by the dashboard's data layer: an optional value standing in for
 * JavaScript's `undefined`, the nested year -> country -> record objects that the
 * API routes return, and the JSON replies of the API routes.
 */
module Common {

  datatype Option<+T> = None | Some(value: T)

  /** A JSON record such as `{cases: 12.5}`: field name to number. */
  type Record = map<string, real>

  /** The countries of one year: country name to record. */
  type Bucket = map<string, Record>

  /** A whole dataset: year key (a decimal string, as JavaScript object keys are) to bucket. */
  type Dataset = map<string, Bucket>

  /** `bucket[country]?.field`: missing when the country or the field is absent. */
  function FieldOf(bucket: Bucket, country: string, field: string): Option<real>
  {
    if country in bucket && field in bucket[country] then Some(bucket[country][field]) else None
  }

  /** Multiplying both sides by a non-negative factor keeps their order. */
  lemma MulMonotone(x: real, y: real, k: real)
    requires x <= y && 0.0 <= k
    ensures x * k <= y * k
  {
    assert (y - x) * k >= 0.0;
  }

  /** Dividing both sides by a positive divisor keeps their order. */
  lemma DivMonotone(x: real, y: real, k: real)
    requires x <= y && 0.0 < k
    ensures x / k <= y / k
  {
    MulMonotone(x, y, 1.0 / k);
  }

  /** A non-zero number divided by itself is one. */
  lemma DivSelf(d: real)
    requires d != 0.0
    ensures d / d == 1.0
  {
    assert 1.0 * d == d;
  }

  /** JavaScript truthiness of a looked-up number: `undefined` and `0` are falsy. */
  predicate Truthy(v: Option<real>)
  {
    v.Some? && v.value != 0.0
  }

  /** The JSON body an API route sends. `AverageBody(None)` is `{avgUV: null}`. */
  datatype Body =
    | AverageBody(avgUV: Option<real>)
    | ImageBody(image: string)
    | MessageBody(message: string)

  /** `res.status(status).json(body)`. */
  datatype Reply = Reply(status: int, body: Body)

  /** The field both pages read from the per-country UV dataset. */
  const AvgUvField := "avgUV"

  /** The message both Meteomatics routes reply with when the upstream answer is not ok. */
  const FetchFailed := "Failed to fetch UV data"

  /** The field every case-count record carries, in the pivot's output and in the skin-cancer dataset alike. */
  const CasesField := "cases"

  /** The Meteomatics parameter both routes ask for: the UV index. */
  const UvParameter := "uv:idx"

  /** The day-and-time both routes ask for: the 1st at 13:00 at +01:00. */
  const FirstAt13 := "01T13:00:00.000+01:00"

  /** The Meteomatics API root both routes build their request URLs on. */
  const MeteomaticsBase := "https://api.meteomatics.com/"
}
