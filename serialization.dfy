/**
 * The two datetime helpers of the API server: `prepare_for_mongo` turns
 * every datetime value of a record into its ISO string before the record
 * is stored, and `parse_from_mongo` turns strings under `..._at` keys back
 * into datetimes after a record is read.
 *
 * Instants are abstract (a tick count) and the ISO rendering is an
 * injective encoding with a parser that inverts it; the calendar format
 * itself is not modelled.
 */
module Serialization {
  import opened Basics

  /** A point in time, abstracted to a tick count. */
  type Instant = nat

  /** The field values a stored record can carry. */
  datatype Value = Text(s: string) | Time(t: Instant) | Number(n: int) | Null

  /** A record as a dictionary from field names to values. */
  type Document = map<string, Value>

  /** `datetime.fromisoformat`: `None` where Python raises ValueError. */
  function FromIsoFormat(s: string): Option<Instant> {
    ParseDecimal(s)
  }

  /** `datetime.isoformat`, abstracted: an encoding that `FromIsoFormat` inverts. */
  function IsoFormat(t: Instant): (s: string)
    ensures FromIsoFormat(s) == Some(t)
  {
    DecimalRoundTrip(t);
    Decimal(t)
  }

  lemma IsoFormatInjective(a: Instant, b: Instant)
    ensures IsoFormat(a) == IsoFormat(b) <==> a == b
  {
    assert FromIsoFormat(IsoFormat(a)) == Some(a);
    assert FromIsoFormat(IsoFormat(b)) == Some(b);
  }

  /** `key.endswith('_at')` */
  predicate EndsWithAt(key: string) {
    |key| >= 3 && key[|key| - 3..] == "_at"
  }

  // ---------------------------------------------------------------------
  // prepare_for_mongo
  // ---------------------------------------------------------------------

  function PreparedValue(v: Value): Value {
    if v.Time? then Text(IsoFormat(v.t)) else v
  }

  /** The record `prepare_for_mongo` leaves behind. */
  function Prepared(d: Document): (r: Document)
    ensures r.Keys == d.Keys
    ensures forall k :: k in r ==> !r[k].Time?
    ensures forall k :: k in d && !d[k].Time? ==> r[k] == d[k]
    ensures forall k :: k in d && d[k].Time? ==> r[k].Text? && FromIsoFormat(r[k].s) == Some(d[k].t)
  {
    map k | k in d :: PreparedValue(d[k])
  }

  /** Overwrites, entry by entry, every datetime value with its ISO string. */
  method PrepareForMongo(data: Document) returns (r: Document)
    ensures r == Prepared(data)
  {
    r := data;
    var pending := data.Keys;
    while pending != {}
      invariant pending <= data.Keys && r.Keys == data.Keys
      invariant forall k :: k in pending ==> r[k] == data[k]
      invariant forall k :: k in data && k !in pending ==> r[k] == PreparedValue(data[k])
      decreases pending
    {
      var key :| key in pending;
      var value := data[key];
      if value.Time? {
        r := r[key := Text(IsoFormat(value.t))];
      }
      pending := pending - {key};
    }
  }

  // ---------------------------------------------------------------------
  // parse_from_mongo
  // ---------------------------------------------------------------------

  function ParsedValue(key: string, v: Value): Value {
    if EndsWithAt(key) && v.Text? then
      match FromIsoFormat(v.s)
      case Some(t) => Time(t)
      case None => v   // the bare `except: pass` keeps the string
    else v
  }

  /** The record `parse_from_mongo` leaves behind. */
  function Parsed(d: Document): (r: Document)
    ensures r.Keys == d.Keys
    ensures forall k :: k in d && !(EndsWithAt(k) && d[k].Text?) ==> r[k] == d[k]
    ensures forall k :: k in d && EndsWithAt(k) && d[k].Text? ==>
      (FromIsoFormat(d[k].s).None? ==> r[k] == d[k]) &&
      (FromIsoFormat(d[k].s).Some? ==> r[k] == Time(FromIsoFormat(d[k].s).value))
  {
    map k | k in d :: ParsedValue(k, d[k])
  }

  /** Overwrites, entry by entry, every parseable string under an `_at` key
      with the instant it denotes. */
  method ParseFromMongo(item: Document) returns (r: Document)
    ensures r == Parsed(item)
  {
    r := item;
    var pending := item.Keys;
    while pending != {}
      invariant pending <= item.Keys && r.Keys == item.Keys
      invariant forall k :: k in pending ==> r[k] == item[k]
      invariant forall k :: k in item && k !in pending ==> r[k] == ParsedValue(k, item[k])
      decreases pending
    {
      var key :| key in pending;
      var value := item[key];
      if EndsWithAt(key) && value.Text? {
        var parsed := FromIsoFormat(value.s);
        if parsed.Some? {
          r := r[key := Time(parsed.value)];
        }
      }
      pending := pending - {key};
    }
  }

  // ---------------------------------------------------------------------
  // The two helpers as partial inverses
  // ---------------------------------------------------------------------

  /** Every datetime sits under an `_at` key, and no string under an `_at`
      key already reads as a datetime. */
  ghost predicate Restorable(d: Document) {
    forall k :: k in d ==>
      (d[k].Time? ==> EndsWithAt(k)) &&
      (EndsWithAt(k) && d[k].Text? ==> FromIsoFormat(d[k].s).None?)
  }

  lemma PrepareParseRoundTrip(d: Document)
    ensures Parsed(Prepared(d)) == d <==> Restorable(d)
  {
    var p := Prepared(d);
    if Restorable(d) {
      forall k | k in d ensures Parsed(p)[k] == d[k] {
        if d[k].Time? {
          assert p[k] == Text(IsoFormat(d[k].t));
        }
      }
    } else {
      var k :| k in d && !((d[k].Time? ==> EndsWithAt(k)) &&
                           (EndsWithAt(k) && d[k].Text? ==> FromIsoFormat(d[k].s).None?));
      if d[k].Time? && !EndsWithAt(k) {
        assert Parsed(p)[k].Text?;
      } else {
        assert Parsed(p)[k].Time?;
      }
    }
  }

  /** In any record, a datetime under a key without the `_at` suffix comes
      back as its string, so the round trip fails. */
  lemma TimeOutsideAtKeyIsLost(d: Document, k: string)
    requires k in d && d[k].Time? && !EndsWithAt(k)
    ensures k in Parsed(Prepared(d)) && Parsed(Prepared(d))[k] == Text(IsoFormat(d[k].t))
    ensures Parsed(Prepared(d)) != d
  {
    assert Prepared(d)[k] == Text(IsoFormat(d[k].t));
    assert Parsed(Prepared(d))[k] != d[k];
  }

  /** In any record, a string under an `_at` key that already reads as an
      instant comes back as that datetime, so the round trip fails. */
  lemma InstantLikeTextUnderAtKeyIsConverted(d: Document, k: string)
    requires k in d && EndsWithAt(k) && d[k].Text? && FromIsoFormat(d[k].s).Some?
    ensures k in Parsed(Prepared(d)) && Parsed(Prepared(d))[k] == Time(FromIsoFormat(d[k].s).value)
    ensures Parsed(Prepared(d)) != d
  {
    assert Prepared(d)[k] == d[k];
    assert Parsed(Prepared(d))[k] != d[k];
  }
}
