/** The user-visible outcome of `uploadNote`. */
module Upload {
  import opened Wrappers

  const SuccessNotice: string := "Note successfully uploaded."
  const FailureNotice: string := "Something went wrong when uploading!"

  /** How the POST ended: a response with its status code, or a rejected `fetch`. */
  datatype Response = Responded(status: int) | TransportFailed

  /**
   * The notice shown after the upload. A response with status exactly 200 is a
   * success and every other status a failure; a rejected request never reaches
   * the status check, so no notice is shown.
   */
  function NoticeFor(response: Response): (m: Option<string>)
    ensures m.None? <==> response.TransportFailed?
    ensures m == Some(SuccessNotice) <==> response == Responded(200)
    ensures m == Some(FailureNotice) <==> response.Responded? && response.status != 200
  {
    match response
    case TransportFailed => None
    case Responded(status) => Some(if status == 200 then SuccessNotice else FailureNotice)
  }

  /** Every response produces exactly one of the two notices. */
  lemma {:induction false} ExactlyOneNotice(status: int)
    ensures NoticeFor(Responded(status)) == Some(SuccessNotice) || NoticeFor(Responded(status)) == Some(FailureNotice)
    ensures !(NoticeFor(Responded(status)) == Some(SuccessNotice) && NoticeFor(Responded(status)) == Some(FailureNotice))
  {
    assert SuccessNotice[0] != FailureNotice[0];
  }
}
