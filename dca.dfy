/**
 * The backend save callback for the token field: hash the plaintext typed
 * into the form, or keep the stored hash when the field is left blank on
 * an existing record.
 */
module Dca {
  import opened Wrappers
  import opened Text
  import opened Entity
  import Manager

  datatype DcaError = EmptyToken | TooLong | HashFailed

  /** PHP's `empty()` on the record id: null and 0 count as "no id". */
  predicate HasId(id: Option<int>)
    ensures HasId(id) <==> IdAsInt(id) != 0
  {
    id.Some? && id.value != 0
  }

  /**
   * `hashToken`. `storedHash` is what the SELECT on the record's id returns
   * (None when no row comes back, read as ''); `hash` is `password_hash`,
   * None standing for its `false` result.
   */
  function HashToken(value: string, id: Option<int>, storedHash: Option<string>, hash: string -> Option<string>)
    : (r: Result<string, DcaError>)
    ensures All(value, IsTrimChar) && HasId(id) ==> r == Ok(storedHash.GetOr(""))
    ensures All(value, IsTrimChar) && !HasId(id) ==> r == Err(EmptyToken)
    ensures !All(value, IsTrimChar) && |value| > 32 ==> r == Err(TooLong)
    ensures !All(value, IsTrimChar) && |value| <= 32 ==>
              r == if hash(value).Some? then Ok(hash(value).value) else Err(HashFailed)
  {
    if Trim(value) == "" then
      if HasId(id) then Ok(storedHash.GetOr("")) else Err(EmptyToken)
    else if |value| > 32 then Err(TooLong)
    else match hash(value)
      case None => Err(HashFailed)
      case Some(h) => Ok(h)
  }

  /**
   * The two save paths disagree on padded input: this one measures and
   * hashes the value as typed, the settings callback trims it first. A
   * 31-character token typed with a space on each side is refused here and
   * accepted (trimmed) there.
   */
  lemma PaddedValueDiverges(core: string, hash: string -> string)
    requires |core| == 31 && !IsTrimChar(core[0]) && !IsTrimChar(core[30])
    ensures var typed := " " + core + " ";
            && HashToken(typed, Some(1), None, s => Some(hash(s))) == Err(TooLong)
            && Manager.SaveTokenCallback(typed, hash) == Ok(hash(core))
  {
    var typed := " " + core + " ";
    assert !IsTrimChar(typed[1]);
    assert !All(typed, IsTrimChar);
    var i := TrimIsInfix(typed);
    TrimFixesTrimmed(core);
    assert Trim(typed) == core by {
      var t := Trim(typed);
      assert t != [];
      assert i == 1;
      assert t == typed[1..32] == core;
    }
  }
}
