/** The field check `read_dummy_data` makes on a parsed dummy-data document,
    and the reads `process_data` later makes of the same document's first
    entry (`dummy_data['dummy_data_data'][0][...]`) while it renders a
    branch.

    A document is the list of entries the JSON file holds. Each key of an
    entry is absent, present with JSON `null`, or present with a value;
    present values are kept as the strings Python's `str()` renders for
    them (and `data` as the list of its items, each so rendered). */
module DummyData {
  import opened Wrappers
  import opened Generator

  datatype Field<+T> = Absent | Null | Present(value: T)

  /** `entry.get(key) is None`: the key is absent or holds `null`. */
  predicate IsNone<T>(f: Field<T>) {
    f.Absent? || f.Null?
  }

  datatype Entry = Entry(summary: Field<string>, data: Field<seq<string>>, message: Field<string>)

  datatype LoadError =
    | EmptyDocument   // `dummy_data[0]` on an empty list: IndexError
    | MissingFields   // the "critical fields missing" exception

  /** The check as written: it rejects the document only when its first
      entry lacks both `data` and `summary`. */
  function CheckFieldsAsWritten(doc: seq<Entry>): (r: Result<seq<Entry>, LoadError>)
    ensures r.Ok? ==> r.value == doc
    ensures r == Err(EmptyDocument) <==> doc == []
    ensures r == Err(MissingFields) <==> doc != [] && IsNone(doc[0].data) && IsNone(doc[0].summary)
  {
    if |doc| == 0 then Err(EmptyDocument)
    else if IsNone(doc[0].data) && IsNone(doc[0].summary) then Err(MissingFields)
    else Ok(doc)
  }

  /** The check its error message describes: both keys are required. */
  function CheckFields(doc: seq<Entry>): (r: Result<seq<Entry>, LoadError>)
    ensures r.Ok? ==> r.value == doc
    ensures r == Err(EmptyDocument) <==> doc == []
    ensures r == Err(MissingFields) <==> doc != [] && (IsNone(doc[0].data) || IsNone(doc[0].summary))
  {
    if |doc| == 0 then Err(EmptyDocument)
    else if IsNone(doc[0].data) || IsNone(doc[0].summary) then Err(MissingFields)
    else Ok(doc)
  }

  /** What a branch is rendered from. */
  datatype Payload = Payload(summary: string, data: seq<string>, message: string)

  datatype ReadError =
    | NoEntry                  // `[0]` on an empty list: IndexError
    | KeyMissing(key: string)  // `['key']` on an absent key: KeyError
    | DataNull                 // `len(None)` on a `null` data value: TypeError

  /** `str()` of a present value; `null` renders as `None`. */
  function Rendered(f: Field<string>): string
    requires !f.Absent?
  {
    if f.Null? then "None" else f.value
  }

  /** The reads of the first entry while a branch is rendered, in the order
      the format arguments are evaluated: `summary`, then `data`, then
      `message`. */
  function FirstPayload(doc: seq<Entry>): (r: Result<Payload, ReadError>)
    ensures r == Err(NoEntry) <==> doc == []
    ensures r.Ok? <==> doc != [] && !doc[0].summary.Absent? && doc[0].data.Present? && !doc[0].message.Absent?
    ensures r == Err(KeyMissing("summary")) <==> doc != [] && doc[0].summary.Absent?
    ensures r.Ok? ==>
      && r.value.summary == Rendered(doc[0].summary)
      && r.value.data == doc[0].data.value
      && r.value.message == Rendered(doc[0].message)
  {
    if |doc| == 0 then Err(NoEntry)
    else
      var e := doc[0];
      if e.summary.Absent? then Err(KeyMissing("summary"))
      else if e.data.Absent? then Err(KeyMissing("data"))
      else if e.data.Null? then Err(DataNull)
      else if e.message.Absent? then Err(KeyMissing("message"))
      else Ok(Payload(Rendered(e.summary), e.data.value, Rendered(e.message)))
  }

  /** The rule a branch is rendered from: the answers collected for it and
      the first entry of its document. Reading fails as `FirstPayload`
      does, and a rule read from a document carries that entry's values. */
  function RuleFor(actionId: string, parameter: Option<string>, parameterValue: string, doc: seq<Entry>): (r: Result<Rule, ReadError>)
    ensures r.Ok? <==> FirstPayload(doc).Ok?
    ensures r.Err? ==> r.error == FirstPayload(doc).error
    ensures r.Ok? ==>
      && r.value.actionId == actionId && r.value.parameter == parameter
      && r.value.parameterValue == parameterValue
      && r.value.summary == Rendered(doc[0].summary)
      && r.value.data == doc[0].data.value
      && r.value.message == Rendered(doc[0].message)
  {
    var p := FirstPayload(doc);
    if p.Err? then Err(p.error)
    else Ok(Rule(actionId, parameter, parameterValue, p.value.summary, p.value.data, p.value.message))
  }

  /** The check as written lets through a document that rendering then
      fails on: one with `data` and `message` but no `summary` key. */
  lemma AsWrittenAdmitsMissingSummary()
    ensures var doc := [Entry(Absent, Present([]), Present("ok"))];
      && CheckFieldsAsWritten(doc).Ok?
      && FirstPayload(doc) == Err(KeyMissing("summary"))
  {
  }

  /** After the intended check, rendering can fail on neither `summary` nor
      `data`: only a missing `message` key is left to stop it. */
  lemma CheckedPayload(doc: seq<Entry>)
    requires CheckFields(doc).Ok?
    ensures FirstPayload(doc).Ok? || FirstPayload(doc) == Err(KeyMissing("message"))
    ensures !doc[0].message.Absent? ==> FirstPayload(doc).Ok?
  {
  }

  /** The intended check is the stricter one: whatever it accepts the check
      as written accepts, and a document only the check as written accepts
      is one that rendering then fails on, unless its summary is `null`
      (rendered as `None`). */
  lemma CheckFieldsStricter(doc: seq<Entry>)
    ensures CheckFields(doc).Ok? ==> CheckFieldsAsWritten(doc).Ok?
    ensures CheckFieldsAsWritten(doc).Ok? && !CheckFields(doc).Ok? ==>
      doc != [] && (doc[0].summary.Null? || (FirstPayload(doc).Err? && FirstPayload(doc) != Err(NoEntry)))
  {
  }
}
