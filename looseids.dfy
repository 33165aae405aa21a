/**
 * Record identifiers as the source handles them: a number when the counter
 * hands one out, but the string of the hidden form field when a record is
 * edited (`form.patientId.value || ++patientIdCounter`, and likewise for
 * appointments). Some lookups compare identifiers with `==`, which converts
 * a string to a number, and others with `===` / `!==`, which do not. This
 * module models that identifier column as written and shows what an edit
 * does to it; `Store` models the identifiers as numbers throughout.
 */
module LooseIds {
  import opened Wrappers
  import opened Seqs
  import opened Text

  /** A JavaScript identifier value: a number, or the string a form field holds. */
  datatype JsId = Num(n: int) | Str(s: string)

  /** `===`: same type and same value. */
  predicate StrictEquals(a: JsId, b: JsId)
  {
    match (a, b)
    case (Num(x), Num(y)) => x == y
    case (Str(x), Str(y)) => x == y
    case _ => false
  }

  /** `==`: a string compared with a number is first converted with `Number(...)`. */
  predicate LooseEquals(a: JsId, b: JsId)
  {
    match (a, b)
    case (Num(x), Num(y)) => x == y
    case (Str(x), Str(y)) => x == y
    case (Num(x), Str(y)) => NumberOf(y) == Some(x)
    case (Str(x), Num(y)) => NumberOf(x) == Some(y)
  }

  /** `===` is identity of values, `==` is weaker, and they part only across types. */
  lemma EqualityKinds(a: JsId, b: JsId)
    ensures StrictEquals(a, b) <==> a == b
    ensures StrictEquals(a, b) ==> LooseEquals(a, b)
    ensures a.Num? == b.Num? ==> (LooseEquals(a, b) <==> StrictEquals(a, b))
  {
  }

  /** The written form of a counter value matches it under `==`, never under `===`. */
  lemma WrittenIdMatchesLoosely(n: nat)
    ensures LooseEquals(Num(n), Str(NatToDecimal(n)))
    ensures !StrictEquals(Num(n), Str(NatToDecimal(n)))
  {
    NatToDecimalValue(n);
  }

  /** `form.patientId.value || ++counter`: the identifier a submission uses, and the new counter. */
  function FormIdAsWritten(field: string, counter: int): (JsId, int)
  {
    if field == "" then (Num(counter + 1), counter + 1) else (Str(field), counter)
  }

  /**
   * The identifier column after an edit: `findIndex(p => p.id == formData.id)`
   * finds the record, and the spread `{ ...old, ...formData }` gives it the
   * form's string identifier.
   */
  function UpdateIdsAsWritten(ids: seq<JsId>, field: string): seq<JsId>
  {
    var id := FormIdAsWritten(field, 0).0;
    match FirstIndex((x: JsId) => LooseEquals(x, id), ids)
    case None => ids
    case Some(k) => ids[k := id]
  }

  /** `patientsDB.filter(p => p.id !== patientId)` with the number of the table button. */
  function DeleteIdsAsWritten(ids: seq<JsId>, target: int): seq<JsId>
  {
    Filter((x: JsId) => !StrictEquals(x, Num(target)), ids)
  }

  /** `patientsDB.find(p => p.id === parseInt(select.value))` in the appointment handler. */
  function FindIdAsWritten(ids: seq<JsId>, selected: int): Option<nat>
  {
    FirstIndex((x: JsId) => StrictEquals(x, Num(selected)), ids)
  }

  /**
   * Before any edit every identifier is a distinct number. Editing record
   * `k` (its form field holds the identifier written out) turns its
   * identifier into a string; from then on the delete button keeps the
   * record, and the appointment form cannot find it.
   */
  lemma EditedIdUnreachable(ids: seq<JsId>, k: nat)
    requires k < |ids| && ids[k].Num? && ids[k].n >= 0
    requires forall i :: 0 <= i < |ids| ==> ids[i].Num?
    requires forall i, j :: 0 <= i < j < |ids| ==> ids[i] != ids[j]
    ensures var n := ids[k].n;
      var edited := UpdateIdsAsWritten(ids, NatToDecimal(n));
      && |edited| == |ids|
      && edited[k] == Str(NatToDecimal(n))
      && Str(NatToDecimal(n)) in DeleteIdsAsWritten(edited, n)
      && FindIdAsWritten(edited, n).None?
  {
    var n: nat := ids[k].n;
    var field := NatToDecimal(n);
    NatToDecimalValue(n);
    assert field != [];
    var id := Str(field);
    forall i | 0 <= i < |ids| ensures LooseEquals(ids[i], id) <==> i == k {
      if i != k {
        assert ids[i] != ids[k];
      }
    }
    var found := FirstIndex((x: JsId) => LooseEquals(x, id), ids);
    assert found == Some(k);
    var edited := ids[k := id];
    assert UpdateIdsAsWritten(ids, field) == edited;
    forall i | 0 <= i < |edited| ensures !StrictEquals(edited[i], Num(n)) {
      if i != k {
        assert ids[i] != ids[k];
      }
    }
    assert !StrictEquals(edited[k], Num(n));
  }

  /** The smallest instance: one patient, numbered 1 by the counter, edited once. */
  lemma EditThenDeleteExample()
    ensures UpdateIdsAsWritten([Num(1)], "1") == [Str("1")]
    ensures DeleteIdsAsWritten([Str("1")], 1) == [Str("1")]
    ensures FindIdAsWritten([Str("1")], 1).None?
  {
    assert NumberOf("1") == Some(1);
    assert FirstIndex((x: JsId) => LooseEquals(x, Str("1")), [Num(1)]) == Some(0);
    assert DeleteIdsAsWritten([Str("1")], 1) == DeleteIdsAsWritten([], 1) + [Str("1")];
  }
}
