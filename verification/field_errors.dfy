/**
 * `InvalidFieldsException` and its nested `FieldError`
 * (exceptions/InvalidFieldsException.java).
 *
 * Field names and descriptions may be null in the source, so both are
 * optional strings. The source compares field names with `==` (reference
 * equality); the model compares them by value. The exception's cause is
 * always null where the model raises one and is not kept.
 */
module FieldErrors {
  import opened Wrappers

  type Text = Option<string>

  /** One (field name, description) pair. */
  datatype FieldError = FieldError(fieldName: Text, description: Text)

  /** A `Map.Entry<String, String>`. */
  datatype Entry = Entry(key: Text, value: Text)

  /** The validator hooks: both accept every value, null included. */
  function ValidFieldName(fieldName: Text): bool {
    true
  }

  function ValidDescription(description: Text): bool {
    true
  }

  /**
   * `FieldError(fieldName, description)`: throws `IllegalArgumentException`
   * (carried here as its message) when a validator refuses; as both validators
   * accept everything, it never throws and stores both values unchanged.
   */
  function NewFieldError(fieldName: Text, description: Text): (r: Result<FieldError, string>)
    ensures r.Success?
    ensures r.value.fieldName == fieldName && r.value.description == description
  {
    if !ValidFieldName(fieldName) then Failure("Invalid field name")
    else if !ValidDescription(description) then Failure("Invalid description")
    else Success(FieldError(fieldName, description))
  }

  /** `FieldError(entry)`: a null entry gives a null name and description. */
  function FieldErrorOfEntry(entry: Option<Entry>): (r: Result<FieldError, string>)
    ensures r.Success?
    ensures entry.None? ==> r.value == FieldError(None, None)
    ensures entry.Some? ==> r.value.fieldName == entry.value.key && r.value.description == entry.value.value
  {
    match entry
    case None => NewFieldError(None, None)
    case Some(e) => NewFieldError(e.key, e.value)
  }

  /** `toMapEntry`: the pair as a map entry. */
  function ToMapEntry(e: FieldError): (r: Entry)
    ensures FieldErrorOfEntry(Some(r)) == Success(e)
  {
    Entry(e.fieldName, e.description)
  }

  /** Turning an entry into an error and back gives the same entry. */
  lemma EntryRoundTrip(entry: Entry)
    ensures ToMapEntry(FieldErrorOfEntry(Some(entry)).value) == entry
  {
  }

  /** The exception: a message and the list of field errors. */
  datatype InvalidFieldsException = InvalidFieldsException(message: Text, errors: seq<FieldError>)

  /**
   * `InvalidFieldsException(message, cause, errors...)`: keeps the errors in
   * the given order; a null array gives no errors.
   */
  function NewInvalidFieldsException(message: Text, errors: Option<seq<FieldError>>): (r: InvalidFieldsException)
    ensures r.message == message
    ensures errors.None? ==> r.errors == []
    ensures errors.Some? ==> |r.errors| == |errors.value| && forall i :: 0 <= i < |r.errors| ==> r.errors[i] == errors.value[i]
  {
    InvalidFieldsException(message, errors.GetOr([]))
  }

  /** The descriptions of the errors on `fieldName`, in stored order. */
  function DescriptionsFor(errors: seq<FieldError>, fieldName: Text): (r: seq<Text>)
    ensures |r| <= |errors|
    ensures forall d :: d in r <==> FieldError(fieldName, d) in errors
  {
    if errors == [] then []
    else
      var rest := DescriptionsFor(errors[1..], fieldName);
      assert errors == [errors[0]] + errors[1..];
      if errors[0].fieldName == fieldName then [errors[0].description] + rest else rest
  }

  /** Filtering distributes over concatenation, so stored order is kept. */
  lemma {:induction false} DescriptionsForAppend(a: seq<FieldError>, b: seq<FieldError>, fieldName: Text)
    ensures DescriptionsFor(a + b, fieldName) == DescriptionsFor(a, fieldName) + DescriptionsFor(b, fieldName)
    decreases |a|
  {
    if a == [] {
      assert a + b == b;
    } else {
      assert (a + b)[1..] == a[1..] + b;
      assert (a + b)[0] == a[0];
      DescriptionsForAppend(a[1..], b, fieldName);
    }
  }

  /** `getErrors(fieldName)`. */
  function GetErrors(e: InvalidFieldsException, fieldName: Text): (r: seq<Text>)
    ensures forall d :: d in r <==> FieldError(fieldName, d) in e.errors
    ensures |r| == |e.errors| <==> forall i :: 0 <= i < |e.errors| ==> e.errors[i].fieldName == fieldName
  {
    AllMatchIffFullLength(e.errors, fieldName);
    DescriptionsFor(e.errors, fieldName)
  }

  /** The filter keeps every error exactly when every error is on `fieldName`. */
  lemma {:induction false} AllMatchIffFullLength(errors: seq<FieldError>, fieldName: Text)
    ensures |DescriptionsFor(errors, fieldName)| == |errors|
        <==> forall i :: 0 <= i < |errors| ==> errors[i].fieldName == fieldName
    decreases |errors|
  {
    if errors != [] {
      AllMatchIffFullLength(errors[1..], fieldName);
      if errors[0].fieldName == fieldName {
        forall i | 0 < i < |errors| && errors[1..][i - 1].fieldName == fieldName
          ensures errors[i].fieldName == fieldName
        {
        }
      }
    }
  }

  /** `hasErrors(fieldName)`: some stored error is on `fieldName`. */
  function HasErrors(e: InvalidFieldsException, fieldName: Text): (r: bool)
    ensures r <==> GetErrors(e, fieldName) != []
  {
    var found := exists i | 0 <= i < |e.errors| :: e.errors[i].fieldName == fieldName;
    assert GetErrors(e, fieldName) != [] ==> found by {
      if GetErrors(e, fieldName) != [] {
        var d := GetErrors(e, fieldName)[0];
        assert FieldError(fieldName, d) in e.errors;
        var i :| 0 <= i < |e.errors| && e.errors[i] == FieldError(fieldName, d);
        assert e.errors[i].fieldName == fieldName;
      }
    }
    assert found ==> GetErrors(e, fieldName) != [] by {
      if found {
        var i :| 0 <= i < |e.errors| && e.errors[i].fieldName == fieldName;
        assert FieldError(fieldName, e.errors[i].description) == e.errors[i];
        assert e.errors[i].description in GetErrors(e, fieldName);
      }
    }
    found
  }

  /** The field names of the stored errors, in stored order. */
  function FieldNames(errors: seq<FieldError>): (r: seq<Text>)
    ensures |r| == |errors| && forall i :: 0 <= i < |r| ==> r[i] == errors[i].fieldName
  {
    seq(|errors|, i requires 0 <= i < |errors| => errors[i].fieldName)
  }

  /** The position of the first occurrence of `x` in `s`. */
  function FirstIndex<T(==)>(s: seq<T>, x: T): (r: nat)
    requires x in s
    ensures r < |s| && s[r] == x
    ensures forall j :: 0 <= j < r ==> s[j] != x
  {
    if s[0] == x then 0 else 1 + FirstIndex(s[1..], x)
  }

  /** No value occurs twice in `r`. */
  predicate Distinct<T(==)>(r: seq<T>) {
    forall a, b :: 0 <= a < b < |r| ==> r[a] != r[b]
  }

  /** `r` lists each value of `names[..i]` once, in the order of first occurrence in `names`. */
  ghost predicate FirstOccurrences(names: seq<Text>, r: seq<Text>, i: nat) {
    && i <= |names|
    && Distinct(r)
    && (forall x :: x in r <==> x in names[..i])
    && (forall a :: 0 <= a < |r| ==> r[a] in names && FirstIndex(names, r[a]) < i)
    && (forall a, b :: 0 <= a < b < |r| ==> r[a] in names && r[b] in names && FirstIndex(names, r[a]) < FirstIndex(names, r[b]))
  }

  /** One round of the collector: `names[i]` is appended unless already listed. */
  lemma FirstOccurrencesStep(names: seq<Text>, r: seq<Text>, i: nat)
    requires i < |names| && FirstOccurrences(names, r, i)
    ensures FirstOccurrences(names, if names[i] in r then r else r + [names[i]], i + 1)
  {
    var sought := names[i];
    assert names[..i + 1] == names[..i] + [sought];
    if sought !in r {
      assert FirstIndex(names, sought) == i by {
        forall j | 0 <= j < i
          ensures names[j] != sought
        {
          assert names[..i][j] == names[j];
        }
      }
      var r' := r + [sought];
      assert forall a :: 0 <= a < |r| ==> r'[a] == r[a];
    }
  }

  /**
   * `getInvalidFields`: each field name among the errors exactly once,
   * in the order of first occurrence.
   */
  method GetInvalidFields(e: InvalidFieldsException) returns (r: seq<Text>)
    ensures Distinct(r)
    ensures forall x :: x in r <==> x in FieldNames(e.errors)
    ensures forall a, b :: 0 <= a < b < |r| ==>
      FirstIndex(FieldNames(e.errors), r[a]) < FirstIndex(FieldNames(e.errors), r[b])
  {
    var names := FieldNames(e.errors);
    r := [];
    var i := 0;
    while i < |names|
      invariant FirstOccurrences(names, r, i)
    {
      FirstOccurrencesStep(names, r, i);
      var sought := names[i];
      if sought !in r {
        r := r + [sought];
      }
      i := i + 1;
    }
    assert names[..i] == names;
  }
}
