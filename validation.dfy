/** The required-field check `validateFields` of the server. */
module Validation {

  datatype FieldCheck = AllPresent | MissingField(field: string)

  /**
   * validateFields: walks `requiredFields` in order and reports the first one
   * that is not a property of the request (`field in data`); `data` is the
   * set of property names the request object has.
   */
  method ValidateFields(data: set<string>, requiredFields: seq<string>) returns (r: FieldCheck)
    ensures r == AllPresent <==> forall i :: 0 <= i < |requiredFields| ==> requiredFields[i] in data
    ensures r.MissingField? ==> r.field !in data
    ensures r.MissingField? ==>
      exists i :: 0 <= i < |requiredFields| && requiredFields[i] == r.field &&
        forall j :: 0 <= j < i ==> requiredFields[j] in data
  {
    for i := 0 to |requiredFields|
      invariant forall j :: 0 <= j < i ==> requiredFields[j] in data
    {
      if requiredFields[i] !in data {
        return MissingField(requiredFields[i]);
      }
    }
    return AllPresent;
  }
}
