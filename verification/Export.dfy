/** Byte and record accounting of the response exporter. */
module Export {
  import opened Results

  const MAX_RESPONSE: nat := 2097152
  const MAX_TOTAL: nat := 268435456
  const MAX_RECORDS: nat := 8192

  datatype Record = Record(digest: string, bytes: nat, status: int)

  /** A response as it arrives: its public error code if it carries one, its canonical size and
      digest, and whether its text mentions local metadata. */
  datatype Response = Response(status: int, code: Option<string>, digest: string, bytes: nat, local: bool)

  predicate ChartStatus(status: int) {
    status == 400 || status == 404 || status == 409 || status == 422 || status == 503
  }

  /** The two chart failures that are part of the published result. */
  predicate Published(status: int, code: string) {
    (status == 404 && code == "MARKET_CHART_UNAVAILABLE") || (status == 422 && code == "MARKET_CHART_LIMIT_EXCEEDED")
  }

  ghost function Sum(records: map<string, Record>): nat {
    if records == map[] then 0
    else
      var k :| k in records;
      records[k].bytes + Sum(records - {k})
  }

  /** Any record may be counted first. */
  lemma {:induction false} SumAny(records: map<string, Record>, k: string)
    requires k in records
    ensures Sum(records) == records[k].bytes + Sum(records - {k})
    decreases |records|
  {
    var first :| first in records && Sum(records) == records[first].bytes + Sum(records - {first});
    if first != k {
      SumAny(records - {first}, k);
      SumAny(records - {k}, first);
      assert records - {first} - {k} == records - {k} - {first};
    }
  }

  lemma SumInsert(records: map<string, Record>, k: string, r: Record)
    requires k !in records
    ensures Sum(records[k := r]) == Sum(records) + r.bytes
  {
    SumAny(records[k := r], k);
    assert records[k := r] - {k} == records;
  }

  /** The response may be published for this kind of request. */
  predicate Admitted(r: Response, chart: bool) {
    && (r.status == 200 || (chart && ChartStatus(r.status) && r.code.Some? && Published(r.status, r.code.value)))
    && r.bytes <= MAX_RESPONSE && !r.local
  }

  /** What may be published: an answer, or for a chart one of the two failures that belong to the result; within
      two mebibytes, and without local metadata. */
  lemma AdmittedExactly(r: Response, chart: bool)
    ensures Admitted(r, chart) <==>
            && !r.local && r.bytes <= 2097152
            && (r.status == 200
                || (chart && (r.status, r.code) in {(404, Some("MARKET_CHART_UNAVAILABLE")),
                                                    (422, Some("MARKET_CHART_LIMIT_EXCEEDED"))}))
  {
  }

  /** The routes recorded with an error. */
  function Refused(records: map<string, Record>): set<string> {
    set k | k in records && records[k].status != 200
  }

  class Exporter {
    var records: map<string, Record>
    var total: nat
    var chartErrors: nat

    /** The total is the sum over the recorded routes, within both limits. */
    ghost predicate Valid()
      reads this
    {
      && total == Sum(records) && total <= MAX_TOTAL && |records| <= MAX_RECORDS
      && forall k :: k in records ==> records[k].bytes <= MAX_RESPONSE
    }

    /** A new export, or the continuation of one whose records and total are taken as they are. */
    constructor (existing: Option<(map<string, Record>, nat)>)
      ensures existing.None? ==> records == map[] && total == 0 && Valid()
      ensures existing.Some? ==> records == existing.value.0 && total == existing.value.1
      ensures chartErrors == |Refused(records)|
    {
      records := if existing.Some? then existing.value.0 else map[];
      total := if existing.Some? then existing.value.1 else 0;
      chartErrors := if existing.Some? then |Refused(existing.value.0)| else 0;
    }

    /** Record one response under its canonical route. A failed call ends the export: it leaves the
        records alone, though the total may already include the refused response. */
    method Get(key: string, r: Response, chart: bool) returns (ok: bool)
      modifies this
      ensures ok <==>
              && Admitted(r, chart)
              && if key in old(records) then old(records)[key] == Record(r.digest, r.bytes, r.status)
                 else |old(records)| < MAX_RECORDS && old(total) + r.bytes <= MAX_TOTAL
      ensures ok && old(Valid()) ==> Valid()
      ensures ok ==> records == old(records)[key := Record(r.digest, r.bytes, r.status)]
      ensures ok ==> total == old(total) + if key in old(records) then 0 else r.bytes
      ensures ok ==> chartErrors == old(chartErrors) + if r.status == 200 then 0 else 1
      ensures !ok ==> records == old(records)
    {
      var allowed := chart && ChartStatus(r.status);
      if r.status != 200 && !allowed {
        return false;
      }
      if allowed {
        if r.code.None? || !Published(r.status, r.code.value) {
          return false;
        }
        chartErrors := chartErrors + 1;
      }
      if r.bytes > MAX_RESPONSE || r.local {
        return false;
      }
      var record := Record(r.digest, r.bytes, r.status);
      if key in records {
        ok := records[key] == record;
        assert ok ==> records == records[key := record];
        return;
      }
      total := total + r.bytes;
      if |records| >= MAX_RECORDS || total > MAX_TOTAL {
        return false;
      }
      SumInsert(records, key, record);
      records := records[key := record];
      ok := true;
    }
  }
}
