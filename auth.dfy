/**
 * The credential bootstrap of `auth.py`: load the stored token if there is
 * one, reuse it when it is valid, refresh it when it is expired and carries a
 * refresh token, and otherwise run the interactive consent flow; after a
 * refresh or a consent, write the credentials back to the token file.
 *
 * The OAuth2 refresh grant and the authorization-code consent flow are not
 * modelled: an `AuthServer` value stands for the answers they give.
 */
module Auth {
  import opened Wrappers

  /** An OAuth2 credential record, reduced to the attributes `get_credentials` inspects. */
  datatype Cred = Cred(token: string, valid: bool, expired: bool, refreshToken: Option<string>)

  /** The branch of `get_credentials` that runs. */
  datatype Step = Reuse | Refresh | Consent

  /** The exceptions that escape `get_credentials`: a failed refresh or a failed consent flow. */
  datatype AuthError = RefreshError | ConsentError

  /**
   * The two abstract operations of the authorization server: the refresh grant
   * applied to given credentials, and the consent flow. `None` means that the
   * operation raised.
   */
  datatype AuthServer = AuthServer(refresh: Cred -> Option<Cred>, consent: Option<Cred>)

  /** The condition of the inner `if`: credentials that are present, expired and hold a refresh token. */
  predicate Refreshable(creds: Option<Cred>)
  {
    creds.Some? && creds.value.expired && Truthy(creds.value.refreshToken)
  }

  /** Which branch runs for the credentials loaded from the token file (`None` when there is no file). */
  function Plan(loaded: Option<Cred>): (step: Step)
    ensures step == Reuse <==> loaded.Some? && loaded.value.valid
    ensures step == Refresh <==> loaded.Some? && !loaded.value.valid && loaded.value.expired && Truthy(loaded.value.refreshToken)
    ensures step == Consent <==> loaded.None? || (!loaded.value.valid && !(loaded.value.expired && Truthy(loaded.value.refreshToken)))
  {
    if loaded.Some? && loaded.value.valid then Reuse
    else if Refreshable(loaded) then Refresh
    else Consent
  }

  /** What one call does: the branch taken, how the call ends, and what it writes to the token file (`None`: no write). */
  datatype Attempt = Attempt(step: Step, result: Outcome<Cred, AuthError>, written: Option<Cred>)

  /** The effect of one call of `get_credentials` on a token file holding `tokenFile`. */
  function Obtain(tokenFile: Option<Cred>, server: AuthServer): (a: Attempt)
    ensures a.step == Plan(tokenFile)
    // Valid stored credentials come back as they are: no refresh, no consent, no write.
    ensures tokenFile.Some? && tokenFile.value.valid ==> a == Attempt(Reuse, Returned(tokenFile.value), None)
    // A refresh ends as the refresh grant does; its failure is not caught.
    ensures a.step == Refresh ==>
      (a.result.Returned? <==> server.refresh(tokenFile.value).Some?) &&
      (a.result.Returned? ==> a.result.value == server.refresh(tokenFile.value).value) &&
      (a.result.Raised? ==> a.result.error == RefreshError)
    // The consent flow ends as the authorization server's answer does.
    ensures a.step == Consent ==>
      (a.result.Returned? <==> server.consent.Some?) &&
      (a.result.Returned? ==> a.result.value == server.consent.value) &&
      (a.result.Raised? ==> a.result.error == ConsentError)
    // Whatever is written is exactly what is returned, and every refresh or consent that succeeds is written.
    ensures a.written.Some? <==> a.step != Reuse && a.result.Returned?
    ensures a.written.Some? ==> a.result == Returned(a.written.value)
  {
    match Plan(tokenFile)
    case Reuse => Attempt(Reuse, Returned(tokenFile.value), None)
    case Refresh =>
      var refreshed := server.refresh(tokenFile.value);
      if refreshed.Some? then Attempt(Refresh, Returned(refreshed.value), refreshed)
      else Attempt(Refresh, Raised(RefreshError), None)
    case Consent =>
      if server.consent.Some? then Attempt(Consent, Returned(server.consent.value), server.consent)
      else Attempt(Consent, Raised(ConsentError), None)
  }

  /** The token file after one call of `get_credentials`. */
  function FileAfter(tokenFile: Option<Cred>, server: AuthServer): (file: Option<Cred>)
    ensures Plan(tokenFile) == Reuse ==> file == tokenFile
    ensures Obtain(tokenFile, server).result.Raised? ==> file == tokenFile
    ensures Plan(tokenFile) != Reuse && Obtain(tokenFile, server).result.Returned? ==>
      file == Some(Obtain(tokenFile, server).result.value)
  {
    var a := Obtain(tokenFile, server);
    if a.written.Some? then a.written else tokenFile
  }

  /**
   * A successful call that returns valid credentials leaves a token file that
   * the next call reuses without a refresh or a consent.
   */
  lemma ValidResultIsReusedNextTime(tokenFile: Option<Cred>, server: AuthServer)
    requires Obtain(tokenFile, server).result.Returned? && Obtain(tokenFile, server).result.value.valid
    ensures Plan(FileAfter(tokenFile, server)) == Reuse
    ensures Obtain(FileAfter(tokenFile, server), server).written.None?
  {
  }

  /** The token file, `token.json`, and a record of what has been done to it. */
  class CredentialStore {
    /** The credentials stored in the token file; `None` when the file does not exist. */
    var tokenFile: Option<Cred>
    /** How often the token file has been written. */
    ghost var writes: nat
    /** How often the refresh grant and the consent flow have run. */
    ghost var refreshes: nat
    ghost var consents: nat

    constructor (tokenFile: Option<Cred>)
      ensures this.tokenFile == tokenFile && writes == 0 && refreshes == 0 && consents == 0
    {
      this.tokenFile := tokenFile;
      writes, refreshes, consents := 0, 0, 0;
    }

    /**
     * What one call of `get_credentials` does to the store: the token file
     * becomes `FileAfter`, and each counter goes up by one exactly when its
     * operation happens.
     */
    twostate predicate OneCall(server: AuthServer)
      reads this
    {
      var a := Obtain(old(tokenFile), server);
      tokenFile == FileAfter(old(tokenFile), server) &&
      writes == old(writes) + (if a.written.Some? then 1 else 0) &&
      refreshes == old(refreshes) + (if a.step == Refresh then 1 else 0) &&
      consents == old(consents) + (if a.step == Consent then 1 else 0)
    }

    /** `get_credentials()`. */
    method GetCredentials(server: AuthServer) returns (r: Outcome<Cred, AuthError>)
      modifies this
      ensures r == Obtain(old(tokenFile), server).result
      ensures OneCall(server)
      // At most one of the two abstract operations runs, and the file is written at most once.
      ensures refreshes + consents <= old(refreshes) + old(consents) + 1
      ensures refreshes == old(refreshes) || consents == old(consents)
      ensures writes <= old(writes) + 1
    {
      var creds: Option<Cred> := None;
      if tokenFile.Some? {
        creds := tokenFile;
      }
      if creds.None? || !creds.value.valid {
        if Refreshable(creds) {
          refreshes := refreshes + 1;
          creds := server.refresh(creds.value);
          if creds.None? {
            r := Raised(RefreshError);
            return;
          }
        } else {
          consents := consents + 1;
          creds := server.consent;
          if creds.None? {
            r := Raised(ConsentError);
            return;
          }
        }
        tokenFile := creds;
        writes := writes + 1;
      }
      r := Returned(creds.value);
    }
  }
}
