/**
  The validation gate that runs before any tree is built: the decoded input must
  be a non-empty list of records, and every record must carry every nesting level.
 */
module Validator {
  import opened Json
  import opened Errors

  /** The decoded input is a non-empty list whose elements are all JSON objects. */
  predicate IsRecordList(input: Json)
  {
    input.JArr? && |input.items| > 0 && forall i :: 0 <= i < |input.items| ==> input.items[i].JObj?
  }

  /** The records of a list of JSON objects, in input order. */
  function RecordsOf(items: seq<Json>): (records: seq<Record>)
    requires forall i :: 0 <= i < |items| ==> items[i].JObj?
  {
    seq(|items|, i requires 0 <= i < |items| => items[i].fields)
  }

  /** Every declared nesting level is a key of the record. */
  predicate HasAllLevels(record: Record, levels: seq<string>)
  {
    forall i :: 0 <= i < |levels| ==> levels[i] in record
  }

  /**
    The records that lack at least one nesting level, in input order: the records
    the source reports on its diagnostics stream.
   */
  function Offending(records: seq<Record>, levels: seq<string>): (r: seq<Record>)
    ensures |r| <= |records|
    ensures forall x :: x in r <==> x in records && !HasAllLevels(x, levels)
    ensures |r| == 0 <==> forall i :: 0 <= i < |records| ==> HasAllLevels(records[i], levels)
  {
    if records == [] then []
    else
      var last := records[|records| - 1];
      var front := Offending(records[..|records| - 1], levels);
      assert records == records[..|records| - 1] + [last];
      front + (if HasAllLevels(last, levels) then [] else [last])
  }

  /** The last record is reported after the ones before it, when it lacks a level. */
  lemma OffendingLast(records: seq<Record>, levels: seq<string>)
    requires records != []
    ensures var last := records[|records| - 1];
            Offending(records, levels) ==
            Offending(records[..|records| - 1], levels) + if HasAllLevels(last, levels) then [] else [last]
  {
  }

  /**
    Reporting is done record by record in input order: the offending records
    of a concatenation are those of the first part followed by those of the
    second.
   */
  lemma {:induction false} OffendingAppend(a: seq<Record>, b: seq<Record>, levels: seq<string>)
    ensures Offending(a + b, levels) == Offending(a, levels) + Offending(b, levels)
    decreases |b|
  {
    if b == [] {
      assert a + b == a;
    } else {
      var init, last := b[..|b| - 1], b[|b| - 1];
      var tail := if HasAllLevels(last, levels) then [] else [last];
      var ab := a + b;
      assert ab[..|ab| - 1] == a + init && ab[|ab| - 1] == last;
      var oa, oi := Offending(a, levels), Offending(init, levels);
      calc {
        Offending(ab, levels);
        { OffendingLast(ab, levels); }
        Offending(a + init, levels) + tail;
        { OffendingAppend(a, init, levels); }
        (oa + oi) + tail;
        oa + (oi + tail);
        { OffendingLast(b, levels); }
        oa + Offending(b, levels);
      }
    }
  }

  /**
    A record lacking a level is reported as many times as it occurs in the
    input; a record carrying every level is never reported.
   */
  lemma {:induction false} OffendingCount(records: seq<Record>, levels: seq<string>, x: Record)
    ensures multiset(Offending(records, levels))[x] == if HasAllLevels(x, levels) then 0 else multiset(records)[x]
    decreases |records|
  {
    if records != [] {
      var init, last := records[..|records| - 1], records[|records| - 1];
      var tail := if HasAllLevels(last, levels) then [] else [last];
      assert records == init + [last];
      assert multiset(records)[x] == multiset(init)[x] + multiset([last])[x];
      OffendingLast(records, levels);
      assert multiset(Offending(records, levels))[x] == multiset(Offending(init, levels))[x] + multiset(tail)[x];
      OffendingCount(init, levels, x);
    }
  }

  /**
    The verdict of validation: `InvalidDataStructure` unless the input is a
    non-empty list of records; otherwise `DataAttributeMissing` with the number
    of records lacking a nesting level, or true when there is none.
   */
  function Validate(input: Json, levels: seq<string>): (r: Result<bool>)
    ensures r == Err(InvalidDataStructure) <==> !IsRecordList(input)
    ensures r == Ok(true) <==>
              IsRecordList(input) && forall i :: 0 <= i < |input.items| ==> HasAllLevels(input.items[i].fields, levels)
    ensures r.Err? && r.error.DataAttributeMissing? <==>
              IsRecordList(input) && exists i :: 0 <= i < |input.items| && !HasAllLevels(input.items[i].fields, levels)
    ensures r.Err? && r.error.DataAttributeMissing? ==>
              r.error.missingCount == |Offending(RecordsOf(input.items), levels)| > 0
    ensures r.Ok? || r == Err(InvalidDataStructure) || (r.Err? && r.error.DataAttributeMissing?)
  {
    if !IsRecordList(input) then Err(InvalidDataStructure)
    else
      var records := RecordsOf(input.items);
      var missing := |Offending(records, levels)|;
      assert forall i :: 0 <= i < |input.items| ==> records[i] == input.items[i].fields;
      if missing > 0 then Err(DataAttributeMissing(missing)) else Ok(true)
  }
}
