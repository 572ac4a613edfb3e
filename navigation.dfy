/** The button-to-page bindings (script.js:85-116): the sign-in button and the
    two email-capture forms (the hero form and the one in the FAQ section),
    which share one behaviour. `encodeURIComponent` is a parameter `encode`. */
module Navigation {
  import opened Browser

  const LoginPage := "login.html"
  const SignupPrefix := "signup.html?email="
  const InvalidEmailMessage := "Please enter a valid email address"
  /** What reading `.value` of a missing input (`null`) throws. */
  const MissingInputError := "TypeError"

  /** The email check `email && email.includes('@')`: the empty string is
      falsy, and any other string must contain an '@'. */
  function Accepts(email: string): (r: bool)
    ensures r <==> '@' in email
  {
    IncludesCharacter(email, '@');
    |email| > 0 && Includes(email, "@")
  }

  /** The signup page carrying the encoded email as its query parameter. */
  function SignupUrl(email: string, encode: string -> string): (url: string)
    ensures |SignupPrefix| <= |url| && url[..|SignupPrefix|] == SignupPrefix
    ensures url[|SignupPrefix|..] == encode(email)
  {
    SignupPrefix + encode(email)
  }

  /** Reads back the encoded email from a signup URL, if it is one. */
  function EmailParameter(url: string): (r: Option<string>)
    ensures r.Some? <==> |SignupPrefix| <= |url| && url[..|SignupPrefix|] == SignupPrefix
  {
    if |SignupPrefix| <= |url| && url[..|SignupPrefix|] == SignupPrefix
    then Some(url[|SignupPrefix|..])
    else None
  }

  /** The query parameter of the signup URL is the encoded email. */
  lemma SignupUrlRoundTrip(email: string, encode: string -> string)
    ensures EmailParameter(SignupUrl(email, encode)) == Some(encode(email))
  {
  }

  /** The sign-in button's handler: always goes to the login page. Without
      the button, no handler exists. */
  function SignInClick(buttonPresent: bool): (r: Effect)
    ensures r != NoEffect <==> buttonPresent
    ensures r != NoEffect ==> r == Navigate(LoginPage)
  {
    if buttonPresent then Navigate(LoginPage) else NoEffect
  }

  /** The handler of either email-capture button. `input` is the form's
      input field, if the markup has one, looked up when the button is
      clicked; reading the value of a missing field throws a TypeError. */
  function CaptureClick(buttonPresent: bool, input: Option<string>, encode: string -> string): (r: Effect)
    ensures !buttonPresent ==> r == NoEffect
    ensures buttonPresent && input.None? ==> r == Thrown(MissingInputError)
    ensures r.Navigate? ==> input.Some? && '@' in input.value && r.url == SignupUrl(input.value, encode)
    ensures r.Alert? ==> input.Some? && '@' !in input.value && r.message == InvalidEmailMessage
  {
    if !buttonPresent then NoEffect
    else match input
      case None => Thrown(MissingInputError)
      case Some(email) =>
        if Accepts(email) then Navigate(SignupUrl(email, encode))
        else Alert(InvalidEmailMessage)
  }

  /** An email-capture click navigates exactly when the email contains an
      '@', and then to the signup page whose parameter is the encoded email;
      every other email raises the alert and leaves the location alone. */
  lemma CaptureOutcome(email: string, encode: string -> string)
    ensures CaptureClick(true, Some(email), encode).Navigate? <==> '@' in email
    ensures '@' in email ==>
      EmailParameter(CaptureClick(true, Some(email), encode).url) == Some(encode(email))
    ensures '@' !in email ==> CaptureClick(true, Some(email), encode) == Alert(InvalidEmailMessage)
  {
    if '@' in email {
      SignupUrlRoundTrip(email, encode);
    }
  }

  /** A capture click that navigates has accepted the email. */
  lemma NavigationImpliesAccepted(input: Option<string>, encode: string -> string)
    requires CaptureClick(true, input, encode).Navigate?
    ensures input.Some? && '@' in input.value
  {
  }

  /** Without its button a form has no handler, so a click does nothing. */
  lemma MissingButtonChangesNothing(input: Option<string>, encode: string -> string)
    ensures CaptureClick(false, input, encode) == NoEffect
  {
  }

  /** With its button but without its input field, the handler throws a
      TypeError before it can navigate or alert. */
  lemma MissingInputThrows(encode: string -> string)
    ensures CaptureClick(true, None, encode) == Thrown(MissingInputError)
    ensures !CaptureClick(true, None, encode).Navigate? && !CaptureClick(true, None, encode).Alert?
  {
  }

  /** Examples of the check: "a@b" passes, "" and "abc" do not, and a
      passing "x@y.com" goes to `signup.html?email=x%40y.com` whenever the
      encoder turns it into "x%40y.com". */
  lemma AcceptsExamples(encode: string -> string)
    ensures Accepts("a@b") && !Accepts("") && !Accepts("abc")
    ensures encode("x@y.com") == "x%40y.com" ==>
      CaptureClick(true, Some("x@y.com"), encode) == Navigate("signup.html?email=x%40y.com")
  {
    assert "a@b"[1] == '@';
  }
}
