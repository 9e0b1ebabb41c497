/** Which required transfer details a prepared request still misses, against the details block that
    the request puts on the wire. */
module TransferDetails {

  datatype Field = Field(key: string, name: string, required: bool, allowed: seq<string>)

  datatype Form = Form(group: seq<Field>)

  datatype Requirement = Requirement(fields: seq<Form>)

  datatype Request = Request(reference: string, sourceOfFunds: string, transferPurpose: string,
                             subTransferPurpose: string, invoiceNumber: string)

  /** The requirement endpoint's block has two more keys than a transfer request. */
  datatype Details = Details(reference: string, sourceOfFunds: string, sourceOfFundsOther: string,
                             transferPurpose: string, subTransferPurpose: string, invoiceNumber: string,
                             transferNature: string)

  /** The value a request gives a key, and whether the SDK models the key at all. */
  function DetailValue(r: Request, key: string): (string, bool) {
    if key == "reference" then (r.reference, true)
    else if key == "sourceOfFunds" then (r.sourceOfFunds, true)
    else if key == "transferPurpose" then (r.transferPurpose, true)
    else if key == "transferPurposeInvoiceNumber" then (r.invoiceNumber, true)
    else if key == "transferPurposeSubTransferPurpose" then (r.subTransferPurpose, true)
    else ("", false)
  }

  predicate SelectValueAllowed(f: Field, value: string) {
    f.allowed == [] || value in f.allowed
  }

  predicate Missing(r: Request, f: Field) {
    var (value, modeled) := DetailValue(r, f.key);
    f.required && (!modeled || value == "" || !SelectValueAllowed(f, value))
  }

  function MissingIn(r: Request, fs: seq<Field>): seq<string> {
    if fs == [] then []
    else MissingIn(r, fs[..|fs| - 1]) + (if Missing(r, fs[|fs| - 1]) then [fs[|fs| - 1].name] else [])
  }

  function FieldsOf(forms: seq<Form>): seq<Field> {
    if forms == [] then [] else FieldsOf(forms[..|forms| - 1]) + forms[|forms| - 1].group
  }

  function AllFields(rs: seq<Requirement>): seq<Field> {
    if rs == [] then [] else AllFields(rs[..|rs| - 1]) + FieldsOf(rs[|rs| - 1].fields)
  }

  lemma {:induction false} MissingAppend(r: Request, a: seq<Field>, b: seq<Field>)
    ensures MissingIn(r, a + b) == MissingIn(r, a) + MissingIn(r, b)
  {
    if b == [] {
      assert a + b == a;
    } else {
      assert (a + b)[..|a + b| - 1] == a + b[..|b| - 1];
      MissingAppend(r, a, b[..|b| - 1]);
    }
  }

  method MissingInGroup(group: seq<Field>, r: Request) returns (missing: seq<string>)
    ensures missing == MissingIn(r, group)
  {
    missing := [];
    for k := 0 to |group|
      invariant missing == MissingIn(r, group[..k])
    {
      var field := group[k];
      assert group[..k + 1][..k] == group[..k];
      if !field.required { continue; }
      var (value, modeled) := DetailValue(r, field.key);
      if !modeled {
        missing := missing + [field.name];
        continue;
      }
      if value == "" || !SelectValueAllowed(field, value) {
        missing := missing + [field.name];
      }
    }
    assert group[..|group|] == group;
  }

  method MissingInForms(forms: seq<Form>, r: Request) returns (missing: seq<string>)
    ensures missing == MissingIn(r, FieldsOf(forms))
  {
    missing := [];
    for j := 0 to |forms|
      invariant missing == MissingIn(r, FieldsOf(forms[..j]))
    {
      var inGroup := MissingInGroup(forms[j].group, r);
      MissingAppend(r, FieldsOf(forms[..j]), forms[j].group);
      assert forms[..j + 1][..j] == forms[..j];
      missing := missing + inGroup;
    }
    assert forms[..|forms|] == forms;
  }

  /** The names of the required fields the request does not satisfy, in the order of the forms. */
  method MissingTransferDetails(requirements: seq<Requirement>, r: Request) returns (missing: seq<string>)
    ensures missing == MissingIn(r, AllFields(requirements))
  {
    missing := [];
    for i := 0 to |requirements|
      invariant missing == MissingIn(r, AllFields(requirements[..i]))
    {
      var inForms := MissingInForms(requirements[i].fields, r);
      MissingAppend(r, AllFields(requirements[..i]), FieldsOf(requirements[i].fields));
      assert requirements[..i + 1][..i] == requirements[..i];
      missing := missing + inForms;
    }
    assert requirements[..|requirements|] == requirements;
  }

  // ----- The wire -----

  function DetailOf(d: Details, key: string): string {
    if key == "reference" then d.reference
    else if key == "sourceOfFunds" then d.sourceOfFunds
    else if key == "sourceOfFundsOther" then d.sourceOfFundsOther
    else if key == "transferPurpose" then d.transferPurpose
    else if key == "transferPurposeSubTransferPurpose" then d.subTransferPurpose
    else if key == "transferPurposeInvoiceNumber" then d.invoiceNumber
    else if key == "transferNature" then d.transferNature
    else ""
  }

  const KEYS: set<string> := {
    "reference", "sourceOfFunds", "sourceOfFundsOther", "transferPurpose",
    "transferPurposeSubTransferPurpose", "transferPurposeInvoiceNumber", "transferNature"
  }

  /** The non-empty details among some keys. */
  function WireOf(d: Details, keys: set<string>): map<string, string> {
    map k | k in keys && DetailOf(d, k) != "" :: DetailOf(d, k)
  }

  function Wire(d: Details): map<string, string> { WireOf(d, KEYS) }

  lemma OneMoreKey(d: Details, keys: set<string>, key: string)
    ensures WireOf(d, keys + {key})
         == if DetailOf(d, key) != "" then WireOf(d, keys)[key := DetailOf(d, key)] else WireOf(d, keys)
  {
    hide DetailOf;
  }

  /** The block carries exactly the non-empty details. */
  method ToWire(d: Details) returns (wire: map<string, string>)
    ensures wire == Wire(d)
  {
    hide WireOf, Wire;
    wire := map[];
    ghost var done: set<string> := {};
    NoKeys(d);
    OneMoreKey(d, done, "reference");
    if d.reference != "" { wire := wire["reference" := d.reference]; }
    done := done + {"reference"};
    OneMoreKey(d, done, "sourceOfFunds");
    if d.sourceOfFunds != "" { wire := wire["sourceOfFunds" := d.sourceOfFunds]; }
    done := done + {"sourceOfFunds"};
    OneMoreKey(d, done, "sourceOfFundsOther");
    if d.sourceOfFundsOther != "" { wire := wire["sourceOfFundsOther" := d.sourceOfFundsOther]; }
    done := done + {"sourceOfFundsOther"};
    OneMoreKey(d, done, "transferPurpose");
    if d.transferPurpose != "" { wire := wire["transferPurpose" := d.transferPurpose]; }
    done := done + {"transferPurpose"};
    OneMoreKey(d, done, "transferPurposeSubTransferPurpose");
    if d.subTransferPurpose != "" { wire := wire["transferPurposeSubTransferPurpose" := d.subTransferPurpose]; }
    done := done + {"transferPurposeSubTransferPurpose"};
    OneMoreKey(d, done, "transferPurposeInvoiceNumber");
    if d.invoiceNumber != "" { wire := wire["transferPurposeInvoiceNumber" := d.invoiceNumber]; }
    done := done + {"transferPurposeInvoiceNumber"};
    OneMoreKey(d, done, "transferNature");
    if d.transferNature != "" { wire := wire["transferNature" := d.transferNature]; }
    done := done + {"transferNature"};
    WholeWire(d, done);
  }

  lemma NoKeys(d: Details)
    ensures WireOf(d, {}) == map[]
  {
  }

  lemma WholeWire(d: Details, keys: set<string>)
    requires keys == KEYS
    ensures WireOf(d, keys) == Wire(d)
  {
  }

  /** The details block of a transfer request leaves the two requirements-only keys empty. */
  function DetailsWire(r: Request): map<string, string> {
    Wire(Details(r.reference, r.sourceOfFunds, "", r.transferPurpose, r.subTransferPurpose, r.invoiceNumber, ""))
  }

  lemma {:induction false} NothingMissing(r: Request, fs: seq<Field>)
    ensures MissingIn(r, fs) == [] <==> forall f <- fs :: !Missing(r, f)
  {
    if fs != [] {
      NothingMissing(r, fs[..|fs| - 1]);
      assert fs == fs[..|fs| - 1] + [fs[|fs| - 1]];
    }
  }

  lemma WireHasValue(r: Request, key: string)
    ensures key in DetailsWire(r) <==> DetailValue(r, key).1 && DetailValue(r, key).0 != ""
    ensures key in DetailsWire(r) ==> DetailsWire(r)[key] == DetailValue(r, key).0
  {
  }

  /** Nothing is reported missing exactly when the block that goes on the wire answers every required
      field with a non-empty value, out of the allowed ones where there are any. */
  lemma NothingMissingOnTheWire(requirements: seq<Requirement>, r: Request)
    ensures MissingIn(r, AllFields(requirements)) == []
       <==> forall f <- AllFields(requirements) :: f.required ==>
              && f.key in DetailsWire(r) && DetailsWire(r)[f.key] != ""
              && (f.allowed == [] || DetailsWire(r)[f.key] in f.allowed)
  {
    NothingMissing(r, AllFields(requirements));
    forall f <- AllFields(requirements)
      ensures !Missing(r, f) <==> Answered(r, f)
    {
      WireHasValue(r, f.key);
    }
  }

  /** A field is optional, or the wire block answers it with a value that is allowed. */
  predicate Answered(r: Request, f: Field) {
    f.required ==>
      && f.key in DetailsWire(r) && DetailsWire(r)[f.key] != ""
      && (f.allowed == [] || DetailsWire(r)[f.key] in f.allowed)
  }

  /** The report goes through the fields of all forms in order and has the name of each that the block
      does not answer. */
  lemma ReportIs(r: Request, before: seq<Field>, f: Field, after: seq<Field>)
    ensures MissingIn(r, []) == []
    ensures MissingIn(r, before + [f] + after)
         == MissingIn(r, before) + (if Answered(r, f) then [] else [f.name]) + MissingIn(r, after)
  {
    WireHasValue(r, f.key);
    MissingAppend(r, before + [f], after);
    MissingAppend(r, before, [f]);
    assert [f][..0] == [];
    hide DetailsWire, DetailValue;
  }

  lemma Grouped(a: seq<Field>, b: seq<Field>, c: seq<Field>)
    ensures a + b + c == a + (b + c)
  {
  }

  lemma {:induction false} FieldsAppend(a: seq<Form>, b: seq<Form>)
    ensures FieldsOf(a + b) == FieldsOf(a) + FieldsOf(b)
  {
    if b == [] {
      assert a + b == a;
    } else {
      assert (a + b)[..|a + b| - 1] == a + b[..|b| - 1];
      FieldsAppend(a, b[..|b| - 1]);
      Grouped(FieldsOf(a), FieldsOf(b[..|b| - 1]), b[|b| - 1].group);
    }
  }

  lemma {:induction false} AllFieldsAppend(a: seq<Requirement>, b: seq<Requirement>)
    ensures AllFields(a + b) == AllFields(a) + AllFields(b)
  {
    if b == [] {
      assert a + b == a;
    } else {
      assert (a + b)[..|a + b| - 1] == a + b[..|b| - 1];
      AllFieldsAppend(a, b[..|b| - 1]);
      hide FieldsOf;
      Grouped(AllFields(a), AllFields(b[..|b| - 1]), FieldsOf(b[|b| - 1].fields));
    }
  }

  /** The fields of all forms: those of each group, group by group, form by form. */
  lemma FieldsAre(before: seq<Requirement>, forms: seq<Form>, group: seq<Field>, more: seq<Form>,
                  after: seq<Requirement>)
    ensures AllFields([]) == []
    ensures AllFields(before + [Requirement(forms + [Form(group)] + more)] + after)
         == AllFields(before) + (FieldsOf(forms) + group + FieldsOf(more)) + AllFields(after)
  {
    var fields := forms + [Form(group)] + more;
    AllFieldsAppend(before + [Requirement(fields)], after);
    AllFieldsAppend(before, [Requirement(fields)]);
    FieldsAppend(forms + [Form(group)], more);
    FieldsAppend(forms, [Form(group)]);
    assert [Requirement(fields)][..0] == [] && [Form(group)][..0] == [];
    assert FieldsOf([Form(group)]) == group;
    assert AllFields([Requirement(fields)]) == FieldsOf(fields);
  }

  /** The block by its keys: each of the seven stands for its own detail, and is there when that is not
      empty; there is no other. */
  lemma WireByKey(d: Details, key: string)
    ensures var w := Wire(d);
            && (key in w ==> w[key] != "" && key in {"reference", "sourceOfFunds", "sourceOfFundsOther",
                  "transferPurpose", "transferPurposeSubTransferPurpose", "transferPurposeInvoiceNumber",
                  "transferNature"})
            && (if "reference" in w then w["reference"] else "") == d.reference
            && (if "sourceOfFunds" in w then w["sourceOfFunds"] else "") == d.sourceOfFunds
            && (if "sourceOfFundsOther" in w then w["sourceOfFundsOther"] else "") == d.sourceOfFundsOther
            && (if "transferPurpose" in w then w["transferPurpose"] else "") == d.transferPurpose
            && (if "transferPurposeSubTransferPurpose" in w then w["transferPurposeSubTransferPurpose"] else "")
               == d.subTransferPurpose
            && (if "transferPurposeInvoiceNumber" in w then w["transferPurposeInvoiceNumber"] else "")
               == d.invoiceNumber
            && (if "transferNature" in w then w["transferNature"] else "") == d.transferNature
  {
  }
}
