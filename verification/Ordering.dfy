/** The ordering query string: parsed by the pagination dependency, printed by the datatable. */
module Ordering {
  import opened Text

  /** A field is a path of accessors; the flag is "descending". */
  datatype Field = Field(accessors: seq<string>, desc: bool)

  type Order = seq<Field>

  // ---- parsing ----

  function RawOrdering(ordering: string): seq<string> {
    if ordering == "" then [] else Split(',', ordering)
  }

  function ParseField(raw: string): Field {
    if raw != "" && raw[0] == '-' then Field(Split('.', raw[1..]), true) else Field(Split('.', raw), false)
  }

  function ParseFields(raw: seq<string>): (order: Order)
    ensures |order| == |raw| && forall i :: 0 <= i < |raw| ==> order[i] == ParseField(raw[i])
  {
    seq(|raw|, i requires 0 <= i < |raw| => ParseField(raw[i]))
  }

  function Parse(ordering: string, default: Order): Order {
    var fields := ParseFields(RawOrdering(ordering));
    if |fields| == 0 then default else fields
  }

  method OrderingGetter(raw: seq<string>, default: Order) returns (order: Order)
    ensures order == if raw == [] then default else ParseFields(raw)
  {
    var fields: Order := [];
    for i := 0 to |raw|
      invariant fields == ParseFields(raw[..i])
    {
      var field, isDesc := raw[i], false;
      if field != "" && field[0] == '-' {
        isDesc := true;
        field := field[1..];
      }
      fields := fields + [Field(Split('.', field), isDesc)];
    }
    assert raw[..|raw|] == raw;
    order := if |fields| == 0 then default else fields;
  }

  // ---- printing ----

  function PrintField(f: Field): string {
    if f.desc then "-" + Join('.', f.accessors) else Join('.', f.accessors)
  }

  function PrintFields(order: Order): (raw: seq<string>)
    ensures |raw| == |order| && forall i :: 0 <= i < |order| ==> raw[i] == PrintField(order[i])
  {
    seq(|order|, i requires 0 <= i < |order| => PrintField(order[i]))
  }

  function Print(order: Order): string {
    Join(',', PrintFields(order))
  }

  // ---- the round trips ----

  lemma PrintParseField(raw: string)
    ensures PrintField(ParseField(raw)) == raw
  {
    if raw != "" && raw[0] == '-' {
      JoinSplit('.', raw[1..]);
    } else {
      JoinSplit('.', raw);
    }
  }

  /** Parsing then printing gives back every non-empty ordering string unchanged. */
  lemma PrintParse(ordering: string, default: Order)
    requires ordering != ""
    ensures Print(Parse(ordering, default)) == ordering
  {
    var raw := Split(',', ordering);
    forall i | 0 <= i < |raw| ensures PrintField(ParseField(raw[i])) == raw[i] {
      PrintParseField(raw[i]);
    }
    assert PrintFields(ParseFields(raw)) == raw;
    JoinSplit(',', ordering);
  }

  /** No ordering at all reads as the default. */
  lemma EmptyIsDefault(default: Order)
    ensures Parse("", default) == default && Print([]) == ""
  {
  }

  /** A field the printed form determines: at least one accessor, none with a dot or a comma,
      and no leading minus on an ascending one. */
  predicate Plain(f: Field) {
    && f.accessors != []
    && (forall a :: a in f.accessors ==> '.' !in a && ',' !in a)
    && (f.desc || f.accessors[0] == "" || f.accessors[0][0] != '-')
  }

  lemma {:induction false} JoinNoComma(parts: seq<string>)
    requires forall a :: a in parts ==> ',' !in a
    ensures ',' !in Join('.', parts)
  {
    if |parts| <= 1 {
    } else {
      JoinNoComma(parts[1..]);
    }
  }

  lemma JoinStart(parts: seq<string>)
    requires parts != []
    ensures Join('.', parts) == "" <==> parts == [""]
    ensures Join('.', parts) != "" ==>
              Join('.', parts)[0] == if parts[0] == "" then '.' else parts[0][0]
  {
  }

  lemma ParsePrintField(f: Field)
    requires Plain(f)
    ensures ParseField(PrintField(f)) == f && ',' !in PrintField(f)
  {
    SplitJoin('.', f.accessors);
    JoinNoComma(f.accessors);
    JoinStart(f.accessors);
    if f.desc {
      assert PrintField(f)[1..] == Join('.', f.accessors);
    }
  }

  lemma ParsedIsPlain(raw: string)
    requires ',' !in raw
    ensures Plain(ParseField(raw))
  {
    var text := if raw != "" && raw[0] == '-' then raw[1..] else raw;
    var parts := Split('.', text);
    forall a | a in parts ensures ',' !in a {
      forall c | c in a ensures c != ',' {
        assert c in text;
      }
    }
    if text == raw && raw != "" {
      JoinSplit('.', raw);
      JoinStart(parts);
    }
  }

  /** The printed orderings that read back as themselves: plain fields only, and not the lone
      empty ascending field, whose printed form is the empty string. */
  predicate Readable(order: Order) {
    (forall f :: f in order ==> Plain(f)) && order != [Field([""], false)]
  }

  lemma PrintedIsEmpty(order: Order)
    requires order != [] && forall f :: f in order ==> Plain(f)
    ensures Print(order) == "" <==> order == [Field([""], false)]
  {
    assert order[0] in order;
    JoinStart(order[0].accessors);
    if |order| == 1 {
      assert order == [order[0]];
    }
  }

  lemma PlainReadsBack(order: Order)
    requires order != [] && forall f :: f in order ==> Plain(f)
    ensures ParseFields(Split(',', Print(order))) == order
  {
    var raw := PrintFields(order);
    forall i | 0 <= i < |raw| ensures ParseField(raw[i]) == order[i] && ',' !in raw[i] {
      assert order[i] in order;
      ParsePrintField(order[i]);
    }
    SplitJoin(',', raw);
  }

  lemma ParsesToPlain(ordering: string)
    ensures forall f :: f in Parse(ordering, []) ==> Plain(f)
  {
    var back := Parse(ordering, []);
    forall f | f in back ensures Plain(f) {
      var i :| 0 <= i < |back| && back[i] == f;
      ParsedIsPlain(RawOrdering(ordering)[i]);
    }
  }

  /** Printing then parsing gives back an ordering exactly when it is readable; the empty one
      reads back as the default, which the datatable leaves empty. */
  lemma ParsePrint(order: Order)
    ensures Parse(Print(order), []) == order <==> Readable(order)
  {
    if order != [] && forall f :: f in order ==> Plain(f) {
      PrintedIsEmpty(order);
      PlainReadsBack(order);
    }
    ParsesToPlain(Print(order));
  }

  // ---- toggling ----

  function IsOrdered(order: Order, accessors: seq<string>, desc: bool): bool {
    if order == [] then false
    else if order[0].accessors == accessors then order[0].desc == desc
    else IsOrdered(order[1..], accessors, desc)
  }

  function Toggle(order: Order, field: string): Order {
    var accessors := Split('.', field);
    if IsOrdered(order, accessors, false) then [Field(accessors, true)]
    else if IsOrdered(order, accessors, true) then []
    else [Field(accessors, false)]
  }

  /** The i-th entry is the first with these accessors, and it goes that way. */
  predicate FirstEntry(order: Order, accessors: seq<string>, desc: bool, i: int) {
    0 <= i < |order| && order[i] == Field(accessors, desc)
    && forall j :: 0 <= j < i ==> order[j].accessors != accessors
  }

  /** A field is sorted that way if the first entry with its accessors says so. */
  lemma {:induction false} IsOrderedIff(order: Order, accessors: seq<string>, desc: bool)
    ensures IsOrdered(order, accessors, desc) <==> exists i :: FirstEntry(order, accessors, desc, i)
  {
    if order == [] {
    } else {
      var rest := order[1..];
      IsOrderedIff(rest, accessors, desc);
      if i :| FirstEntry(rest, accessors, desc, i) {
        assert forall j :: 0 < j < i + 1 ==> order[j] == rest[j - 1];
        assert order[i + 1] == rest[i];
        assert order[0].accessors != accessors ==> FirstEntry(order, accessors, desc, i + 1);
      }
      if i :| FirstEntry(order, accessors, desc, i) {
        if i > 0 {
          assert forall j :: 0 <= j < i - 1 ==> rest[j] == order[j + 1];
          assert FirstEntry(rest, accessors, desc, i - 1);
        }
      }
      if order[0] == Field(accessors, desc) {
        assert FirstEntry(order, accessors, desc, 0);
      }
    }
  }

  /** Toggling goes from unsorted to ascending to descending to unsorted, as the links show it: the
      field, the field behind a minus, nothing. */
  lemma ToggleLinks(order: Order, field: string)
    requires !IsOrdered(order, Split('.', field), false) && !IsOrdered(order, Split('.', field), true)
    ensures var once, twice := Toggle(order, field), Toggle(Toggle(order, field), field);
            && Print(once) == field && Print(twice) == "-" + field && Print(Toggle(twice, field)) == ""
            && once == [Field(Split('.', field), false)] && twice == [Field(Split('.', field), true)]
  {
    var accessors := Split('.', field);
    var up, down := Field(accessors, false), Field(accessors, true);
    JoinSplit('.', field);
    assert IsOrdered([up], accessors, false) && IsOrdered([down], accessors, true);
    assert !IsOrdered([down], accessors, false);
    assert Toggle(order, field) == [up] && Toggle([up], field) == [down] && Toggle([down], field) == [];
  }

  /** Toggling one field three times returns to no ordering exactly when it did not start sorted
      by that field; each link it writes on the way for a column name reads back. */
  lemma ToggleCycles(order: Order, field: string)
    ensures Toggle(Toggle(Toggle(order, field), field), field) == []
            <==> !IsOrdered(order, Split('.', field), false) && !IsOrdered(order, Split('.', field), true)
    ensures field != "" && field[0] != '-' && ',' !in field ==>
              Readable(Toggle([], field)) && Readable(Toggle(Toggle([], field), field))
  {
    var accessors := Split('.', field);
    var up, down := Field(accessors, false), Field(accessors, true);
    assert IsOrdered([up], accessors, false) && IsOrdered([down], accessors, true);
    assert Toggle([up], field) == [down] && Toggle([down], field) == [] && Toggle([], field) == [up];
    if field != "" && field[0] != '-' && ',' !in field {
      ParsedIsPlain(field);
      JoinSplit('.', field);
      assert Plain(down);
    }
  }
}
