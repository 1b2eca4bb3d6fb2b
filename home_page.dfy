/** The home page's heading, a function of the `userName` prop alone. */
module HomePage {

  const WelcomePrefix: string := "Welcome, "
  const NotLoggedIn: string := "You are not Logged In"

  /** An empty name is falsy in the conditional and selects the logged-out text. */
  function Greeting(userName: string): (g: string)
    ensures userName == "" ==> g == NotLoggedIn
    ensures userName != "" ==> g == WelcomePrefix + userName
  {
    if userName != "" then WelcomePrefix + userName else NotLoggedIn
  }

  /** The heading starts with "Welcome, " exactly when the name is non-empty. */
  lemma WelcomeIffNamed(userName: string)
    ensures WelcomePrefix <= Greeting(userName) <==> userName != ""
  {
    if userName == "" {
      assert Greeting(userName)[0] != WelcomePrefix[0];
    }
  }

  /** Different names give different headings: the heading shows who is logged in. */
  lemma GreetingInjective(a: string, b: string)
    requires Greeting(a) == Greeting(b)
    ensures a == b
  {
    WelcomeIffNamed(a);
    WelcomeIffNamed(b);
    if a != "" {
      assert a == Greeting(a)[|WelcomePrefix|..];
    }
  }
}
