/**
 * The spreadsheet export: each record becomes one row of nine columns, the
 * last of which is a "details" text synthesised from the record's
 * category-specific fields. Workbook styling and serialisation are not
 * modelled; the rows are.
 */
module Export {
  import opened Wrappers
  import opened Registrations

  /** `v || '-'`: an unset or empty field shows as a dash. */
  function OrDash(v: Option<string>): (s: string)
    ensures s != ""
    ensures Missing(v) ==> s == "-"
    ensures !Missing(v) ==> s == v.value
  {
    if Missing(v) then "-" else v.value
  }

  /** The details text as the export handler builds it, one template per category. */
  function Details(r: Registration): string {
    if r.whoareyou == Some("student") then
      "Degree: " + OrDash(r.degree) + ", Institution: " + OrDash(r.institution)
    else if r.whoareyou == Some("employee") then
      "Degree: " + OrDash(r.empDegree) + ", Profession: " + OrDash(r.profession)
      + ", Company: " + OrDash(r.company) + ", Designation: " + OrDash(r.designation)
    else if r.whoareyou == Some("business") then
      "Degree: " + OrDash(r.busDegree) + ", Business Type: " + OrDash(r.businessType)
      + ", Business Name: " + OrDash(r.businessName)
    else ""
  }

  /** One labelled slot of the details text. */
  datatype Slot = Slot(caption: string, value: Option<string>)

  /** The labels of a category's details, in their fixed order, each with the field it shows. */
  function CategorySlots(r: Registration): seq<Slot> {
    if r.whoareyou == Some("student") then
      [Slot("Degree", r.degree), Slot("Institution", r.institution)]
    else if r.whoareyou == Some("employee") then
      [Slot("Degree", r.empDegree), Slot("Profession", r.profession),
       Slot("Company", r.company), Slot("Designation", r.designation)]
    else if r.whoareyou == Some("business") then
      [Slot("Degree", r.busDegree), Slot("Business Type", r.businessType),
       Slot("Business Name", r.businessName)]
    else []
  }

  /** `label: value` for one slot, the value defaulting to a dash. */
  function SlotText(s: Slot): string {
    s.caption + ": " + OrDash(s.value)
  }

  /** The slot texts joined by `", "`. */
  function JoinSlots(slots: seq<Slot>): string
    decreases |slots|
  {
    if slots == [] then ""
    else if |slots| == 1 then SlotText(slots[0])
    else JoinSlots(slots[..|slots| - 1]) + ", " + SlotText(slots[|slots| - 1])
  }

  /** One more slot appends `", "` and its text. */
  lemma JoinSlotsSnoc(slots: seq<Slot>, s: Slot)
    requires slots != []
    ensures JoinSlots(slots + [s]) == JoinSlots(slots) + ", " + SlotText(s)
  {
    assert (slots + [s])[..|slots|] == slots;
  }

  /** The template pieces are the captions with their punctuation. */
  lemma TemplatePieces()
    ensures "Degree: " == "Degree" + ": "
    ensures ", Institution: " == ", " + ("Institution" + ": ")
    ensures ", Profession: " == ", " + ("Profession" + ": ")
    ensures ", Company: " == ", " + ("Company" + ": ")
    ensures ", Designation: " == ", " + ("Designation" + ": ")
    ensures ", Business Type: " == ", " + ("Business Type" + ": ")
    ensures ", Business Name: " == ", " + ("Business Name" + ": ")
  {
  }

  /** Appending `", <caption>: "` and a value is appending `", "` and the slot text. */
  lemma AppendSlot(w: string, caption: string, v: string)
    ensures w + (", " + (caption + ": ")) + v == w + ", " + (caption + ": " + v)
  {
  }

  lemma StudentDetailsAreSlots(r: Registration)
    requires r.whoareyou == Some("student")
    ensures Details(r) == JoinSlots(CategorySlots(r))
  {
    var a, b := Slot("Degree", r.degree), Slot("Institution", r.institution);
    TemplatePieces();
    var w := JoinSlots([a]);
    assert w == "Degree: " + OrDash(r.degree);
    AppendSlot(w, "Institution", OrDash(r.institution));
    JoinSlotsSnoc([a], b);
    assert [a] + [b] == CategorySlots(r);
  }

  lemma EmployeeDetailsAreSlots(r: Registration)
    requires r.whoareyou == Some("employee")
    ensures Details(r) == JoinSlots(CategorySlots(r))
  {
    var a, b := Slot("Degree", r.empDegree), Slot("Profession", r.profession);
    var c, d := Slot("Company", r.company), Slot("Designation", r.designation);
    TemplatePieces();
    var w1 := JoinSlots([a]);
    assert w1 == "Degree: " + OrDash(r.empDegree);
    AppendSlot(w1, "Profession", OrDash(r.profession));
    JoinSlotsSnoc([a], b);
    assert [a] + [b] == [a, b];
    var w2 := JoinSlots([a, b]);
    AppendSlot(w2, "Company", OrDash(r.company));
    JoinSlotsSnoc([a, b], c);
    assert [a, b] + [c] == [a, b, c];
    var w3 := JoinSlots([a, b, c]);
    AppendSlot(w3, "Designation", OrDash(r.designation));
    JoinSlotsSnoc([a, b, c], d);
    assert [a, b, c] + [d] == CategorySlots(r);
  }

  lemma BusinessDetailsAreSlots(r: Registration)
    requires r.whoareyou == Some("business")
    ensures Details(r) == JoinSlots(CategorySlots(r))
  {
    var a, b := Slot("Degree", r.busDegree), Slot("Business Type", r.businessType);
    var c := Slot("Business Name", r.businessName);
    TemplatePieces();
    var w1 := JoinSlots([a]);
    assert w1 == "Degree: " + OrDash(r.busDegree);
    AppendSlot(w1, "Business Type", OrDash(r.businessType));
    JoinSlotsSnoc([a], b);
    assert [a] + [b] == [a, b];
    var w2 := JoinSlots([a, b]);
    AppendSlot(w2, "Business Name", OrDash(r.businessName));
    JoinSlotsSnoc([a, b], c);
    assert [a, b] + [c] == CategorySlots(r);
  }

  /**
   * The three templates are one rule: the details text lists the category's
   * labels in their fixed order, each followed by `": "` and its field value
   * or a dash, separated by `", "`; any other category gives the empty text.
   */
  lemma DetailsAreLabelledSlots(r: Registration)
    ensures Details(r) == JoinSlots(CategorySlots(r))
  {
    if r.whoareyou == Some("student") {
      StudentDetailsAreSlots(r);
    } else if r.whoareyou == Some("employee") {
      EmployeeDetailsAreSlots(r);
    } else if r.whoareyou == Some("business") {
      BusinessDetailsAreSlots(r);
    }
  }

  /** Every slot shows a non-empty value: an unset or empty field becomes `-`, never a blank. */
  lemma SlotsNeverBlank(r: Registration)
    ensures forall k :: 0 <= k < |CategorySlots(r)| ==> OrDash(CategorySlots(r)[k].value) != ""
    ensures forall k :: 0 <= k < |CategorySlots(r)| ==>
      (OrDash(CategorySlots(r)[k].value) == "-" <==> Missing(CategorySlots(r)[k].value) || CategorySlots(r)[k].value == Some("-"))
  {
  }

  /** The details text is empty exactly when the category is not one of the three. */
  lemma DetailsEmptyIffUnknownCategory(r: Registration)
    ensures Details(r) == "" <==> !(r.whoareyou.Some? && r.whoareyou.value in Categories)
  {
    if r.whoareyou.Some? && r.whoareyou.value in Categories {
      DetailsAreLabelledSlots(r);
      var slots := CategorySlots(r);
      assert |slots| > 1;
      assert JoinSlots(slots) == JoinSlots(slots[..|slots| - 1]) + ", " + SlotText(slots[|slots| - 1]);
    }
  }

  lemma BusinessNameOnlyPrefix()
    ensures "Degree: " + "-" + ", Business Type: " + "-" + ", Business Name: " == "Degree: -, Business Type: -, Business Name: "
  {
  }

  /** A business record with only a business name set. */
  lemma BusinessNameOnly(r: Registration, name: string)
    requires r.whoareyou == Some("business")
    requires Missing(r.busDegree) && Missing(r.businessType) && r.businessName == Some(name) && name != ""
    ensures Details(r) == "Degree: -, Business Type: -, Business Name: " + name
  {
    BusinessNameOnlyPrefix();
  }

  /** One worksheet row; `None` is an empty cell. */
  datatype Row = Row(
    firstName: Option<string>, middleName: Option<string>, lastName: Option<string>,
    mobile: Option<string>, email: Option<string>, dob: string, address: Option<string>,
    whoareyou: Option<string>, details: string)

  /** The row of one record; `localeDate` stands for `new Date(dob).toLocaleDateString()`. */
  function ExportRow(r: Registration, localeDate: Option<string> -> string): Row {
    Row(r.firstName, r.middleName, r.lastName, r.mobile, r.email, localeDate(r.dob),
        r.address, r.whoareyou, Details(r))
  }

  /**
   * The export loop: one row per record, appended in the order the store
   * listed the records (newest first).
   */
  method BuildRows(regs: seq<Registration>, localeDate: Option<string> -> string) returns (rows: seq<Row>)
    ensures |rows| == |regs|
    ensures forall i :: 0 <= i < |regs| ==> rows[i] == ExportRow(regs[i], localeDate)
    ensures forall i :: 0 <= i < |regs| ==> rows[i].details == JoinSlots(CategorySlots(regs[i]))
  {
    rows := [];
    var i := 0;
    while i < |regs|
      invariant 0 <= i <= |regs|
      invariant |rows| == i
      invariant forall k :: 0 <= k < i ==> rows[k] == ExportRow(regs[k], localeDate)
    {
      var reg := regs[i];
      rows := rows + [ExportRow(reg, localeDate)];
      i := i + 1;
    }
    forall k | 0 <= k < |regs| ensures rows[k].details == JoinSlots(CategorySlots(regs[k])) {
      DetailsAreLabelledSlots(regs[k]);
    }
  }
}
