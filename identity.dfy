/** GetCurrentUserId, which TaskController and UsersController each define
    identically: the caller's id is the NameIdentifier claim that JWT bearer
    authentication put on the request, read with int.Parse. */
module Identity {
  import opened Common
  import opened Int32

  /** The value of the NameIdentifier claim, None when the claim is absent. */
  type Claim = Option<string>

  /** None stands for the two exceptions the method throws: the
      UnauthorizedAccessException of a missing claim and the exception of
      int.Parse on a value that is not an int32 numeral. Each handler catches
      both in its generic `catch` and answers 500. */
  function GetCurrentUserId(claim: Claim): Option<int32>
  {
    match claim
    case None => None
    case Some(v) => ParseInt32(v)
  }

  /** The claim as ASP.NET writes it (`userId.ToString()`) identifies that user. */
  lemma CurrentUserIdOfClaim(id: int32)
    ensures GetCurrentUserId(Some(ToDecimalString(id as int))) == Some(id)
  {
    ParseToDecimalString(id as int);
  }

  /** A missing claim, or one carrying a character no int32 numeral can hold
      (and that is not one of the NULs int.Parse ignores), identifies nobody. */
  lemma CurrentUserIdFails(claim: Claim, i: int)
    requires claim.Some? ==>
      (0 <= i < |claim.value| && !IsDigit(claim.value[i]) &&
       claim.value[i] != '-' && claim.value[i] != '+' && !IsNumberWhite(claim.value[i]) &&
       claim.value[i] != '\0')
    ensures GetCurrentUserId(claim) == None
  {
    if claim.Some? {
      ParseRejectsForeignChar(claim.value, i);
    }
  }
}
