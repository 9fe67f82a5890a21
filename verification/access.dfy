/** The admin passcode gate that guards every state-changing action of the app. */
module Access {

  /** The single hard-coded passcode; it enables both the draw and the reset. */
  const AuthorizedCode: string := "EGSA2025!"

  /** What the gate tells the operator about a typed passcode. */
  datatype Verdict =
    | Granted
      /** Access refused; `invalidShown` says whether the "invalid passcode" error is shown
          (it is not for an empty field, where only the read-only notice appears). */
    | Denied(invalidShown: bool)

  /** The gate: only an exact match grants access. */
  function Check(passcode: string): (v: Verdict)
    ensures v.Granted? <==> passcode == AuthorizedCode
    ensures v.Denied? ==> (v.invalidShown <==> |passcode| > 0)
  {
    if passcode == AuthorizedCode then Granted
    else Denied(passcode != "")
  }

  /** An empty passcode field never grants access and shows no error. */
  lemma EmptyPasscodeDenied()
    ensures Check("") == Denied(false)
  {
  }
}
