/**
 * The Authenticator's verdict. The site sends no explicit "logged in" signal, so after
 * the form is submitted the page text is searched for session markers and, failing
 * that, the login form is probed for once more. The browser steps before the verdict
 * (opening the site, revealing and filling the form, submitting it, the settle waits)
 * are summarised by what they leave behind.
 */
module Login {
  import opened Text

  /** How the login sequence ended, as far as the verdict is concerned. */
  datatype LoginRun =
    | Faulted                                          // any step raised before the verdict
    | Submitted(page: string, formStillPresent: bool)  // rendered markup, and the re-probe

  const SalirMarker: string := "Salir"
  const SalirLowerMarker: string := "salir"
  const AccountMarker: string := "Mi cuenta"
  const LogoutMarker: string := "Cerrar sesión"

  /** The marker test exactly as written: four substring checks, one of them case-folded. */
  predicate HasSessionMarker(page: string) {
    Contains(page, SalirMarker) || Contains(LowerStr(page), SalirLowerMarker)
    || Contains(page, AccountMarker) || Contains(page, LogoutMarker)
  }

  /**
   * The login verdict: a marker wins; otherwise the login form still being found
   * means failure and its absence means success; any fault means failure.
   * The contract states it with the redundant case-sensitive "Salir" test dropped.
   */
  function Verdict(run: LoginRun): (ok: bool)
    ensures ok <==> run.Submitted?
                    && (Contains(LowerStr(run.page), SalirLowerMarker)
                        || Contains(run.page, AccountMarker)
                        || Contains(run.page, LogoutMarker)
                        || !run.formStillPresent)
  {
    match run
    case Faulted => false
    case Submitted(page, formStillPresent) =>
      MarkerCaseInsensitive(page);
      if HasSessionMarker(page) then true
      else if formStillPresent then false
      else true
  }

  /** "Salir" adds nothing: any page containing it also contains "salir" once lowered. */
  lemma MarkerCaseInsensitive(page: string)
    ensures HasSessionMarker(page) <==>
              Contains(LowerStr(page), SalirLowerMarker)
              || Contains(page, AccountMarker) || Contains(page, LogoutMarker)
  {
    if Contains(page, SalirMarker) {
      ContainsLower(page, SalirMarker);
      assert LowerStr(SalirMarker) == SalirLowerMarker;
    }
  }

  /** Every case spelling of "salir" in the page is a positive marker. */
  lemma AnyCaseSalirLogsIn(page: string, spelling: string, formStillPresent: bool)
    requires Contains(page, spelling) && LowerStr(spelling) == SalirLowerMarker
    ensures Verdict(Submitted(page, formStillPresent))
  {
    ContainsLower(page, spelling);
  }

  /** Failure after submission happens exactly when no marker is seen and the form persists. */
  lemma FailureIffFormPersists(page: string, formStillPresent: bool)
    ensures !Verdict(Submitted(page, formStillPresent)) <==>
              !HasSessionMarker(page) && formStillPresent
  {
    MarkerCaseInsensitive(page);
  }

  /** "Mi cuenta" is matched case-sensitively: a page showing only "mi cuenta" still fails. */
  lemma AccountMarkerIsCaseSensitive(page: string)
    requires page == "mi cuenta"
    ensures !Verdict(Submitted(page, true))
  {
    LowerNoUpper(page);
    NotContainsFirstChar(page, SalirLowerMarker);
    NotContainsFirstChar(page, AccountMarker);
    NotContainsFirstChar(page, LogoutMarker);
  }
}
