/**
 * The registration form: four controlled fields, their change handlers, and
 * the submit guard that checks the password confirmation and the email shape
 * before handing `{name, email, password}` to the `onSubmit` callback.
 */
module SignUp {

  // ------------------------------------------------------------ Email shape

  /** ECMAScript's `\s`: the WhiteSpace and LineTerminator code points. */
  predicate IsSpace(c: char) {
    || c in {'\t', '\n', '\U{000B}', '\U{000C}', '\r', ' ', '\U{00A0}', '\U{1680}',
             '\U{2028}', '\U{2029}', '\U{202F}', '\U{205F}', '\U{3000}', '\U{FEFF}'}
    || '\U{2000}' <= c <= '\U{200A}'
  }

  /** `s[lo..hi]` is a non-empty run of `\S` characters. */
  predicate NonSpaceRun(s: string, lo: int, hi: int) {
    0 <= lo < hi <= |s| && forall k :: lo <= k < hi ==> !IsSpace(s[k])
  }

  /** `t` as a whole matches `\S+@\S+\.\S+`, with the '@' at `i` and the '.' at `j`. */
  ghost predicate WholeMatch(t: string) {
    exists i, j :: 0 < i < j < |t| - 1 && t[i] == '@' && t[j] == '.'
                   && NonSpaceRun(t, 0, i) && NonSpaceRun(t, i + 1, j) && NonSpaceRun(t, j + 1, |t|)
  }

  /** `/\S+@\S+\.\S+/.test(s)`: the pattern is not anchored, so any substring may match. */
  ghost predicate PatternFound(s: string) {
    exists a, b :: 0 <= a <= b <= |s| && WholeMatch(s[a..b])
  }

  /** A '.' at `q` closes the non-empty `\S` run after the '@' at `at`, and a `\S` follows it. */
  ghost predicate DotAt(s: string, at: int, q: int) {
    0 <= at && at + 1 < q && q + 1 < |s| && s[q] == '.' && !IsSpace(s[q + 1]) && NonSpaceRun(s, at + 1, q)
  }

  /** An '@' at `p` with a `\S` before it and a closing '.' after it. */
  ghost predicate AtAt(s: string, p: int) {
    1 <= p < |s| && s[p] == '@' && !IsSpace(s[p - 1]) && exists q :: DotAt(s, p, q)
  }

  /** Searches `q, q+1, ...` for a '.' closing the `\S` run after the '@' at `at`. */
  function DotFrom(s: string, at: int, q: int): (r: bool)
    requires 0 <= at < q <= |s|
    requires forall k :: at < k < q ==> !IsSpace(s[k])
    ensures r <==> exists q' :: q <= q' && DotAt(s, at, q')
    decreases |s| - q
  {
    if q + 1 >= |s| then false
    else if IsSpace(s[q]) then false
    else
      assert DotAt(s, at, q) <==> s[q] == '.' && at + 1 < q && !IsSpace(s[q + 1]);
      (s[q] == '.' && at + 1 < q && !IsSpace(s[q + 1])) || DotFrom(s, at, q + 1)
  }

  /** Searches `p, p+1, ...` for an '@' that starts a match. */
  function AtFrom(s: string, p: int): (r: bool)
    requires 1 <= p <= |s|
    ensures r <==> exists p' :: p <= p' && AtAt(s, p')
    decreases |s| - p
  {
    if p == |s| then false
    else
      assert AtAt(s, p) <==> s[p] == '@' && !IsSpace(s[p - 1]) && DotFrom(s, p, p + 1);
      (s[p] == '@' && !IsSpace(s[p - 1]) && DotFrom(s, p, p + 1)) || AtFrom(s, p + 1)
  }

  /** A whole match of `s[a..b]` with '@' at `i` and '.' at `j` puts a suitable '@' at `a + i`. */
  lemma MatchGivesAt(s: string, a: int, b: int, i: int, j: int)
    requires 0 <= a <= b <= |s|
    requires 0 < i < j < b - a - 1 && s[a + i] == '@' && s[a + j] == '.'
    requires NonSpaceRun(s[a..b], 0, i) && NonSpaceRun(s[a..b], i + 1, j) && NonSpaceRun(s[a..b], j + 1, b - a)
    ensures AtAt(s, a + i)
  {
    var t := s[a..b];
    assert !IsSpace(t[i - 1]) && t[i - 1] == s[a + i - 1];
    assert !IsSpace(t[j + 1]) && t[j + 1] == s[a + j + 1];
    forall k | a + i < k < a + j ensures !IsSpace(s[k]) {
      assert s[k] == t[k - a];
    }
    assert DotAt(s, a + i, a + j);
  }

  /** A suitable '@' at `p` and '.' at `q` make `s[p-1..q+2]` a whole match. */
  lemma AtGivesMatch(s: string, p: int, q: int)
    requires 1 <= p < |s| && s[p] == '@' && !IsSpace(s[p - 1]) && DotAt(s, p, q)
    ensures 0 <= p - 1 <= q + 2 <= |s| && WholeMatch(s[p - 1..q + 2])
  {
    var t := s[p - 1..q + 2];
    var i, j := 1, q - p + 1;
    assert t[i] == '@' && t[j] == '.';
    assert NonSpaceRun(t, 0, i);
    forall k | i + 1 <= k < j ensures !IsSpace(t[k]) {
      assert t[k] == s[p - 1 + k];
    }
    assert NonSpaceRun(t, i + 1, j);
    assert t[j + 1] == s[q + 1];
    assert NonSpaceRun(t, j + 1, |t|);
  }

  /** A substring match is the same thing as a suitable '@' and '.' in `s`. */
  lemma PatternFoundIffAt(s: string)
    ensures PatternFound(s) <==> exists p :: AtAt(s, p)
  {
    if PatternFound(s) {
      var a, b :| 0 <= a <= b <= |s| && WholeMatch(s[a..b]);
      var t := s[a..b];
      var i, j :| 0 < i < j < |t| - 1 && t[i] == '@' && t[j] == '.'
                  && NonSpaceRun(t, 0, i) && NonSpaceRun(t, i + 1, j) && NonSpaceRun(t, j + 1, |t|);
      MatchGivesAt(s, a, b, i, j);
    }
    if p :| AtAt(s, p) {
      var q :| DotAt(s, p, q);
      AtGivesMatch(s, p, q);
    }
  }

  /** `isValidEmail`: the regular-expression test, as a left-to-right scan. */
  function IsValidEmail(email: string): (r: bool)
    ensures r <==> PatternFound(email)
  {
    PatternFoundIffAt(email);
    if |email| == 0 then false else AtFrom(email, 1)
  }

  /** A string without an '@' never passes. */
  lemma NoAtIsInvalid(s: string)
    requires '@' !in s
    ensures !IsValidEmail(s)
  {
    PatternFoundIffAt(s);
    forall p | 0 <= p < |s| ensures s[p] != '@' {
      assert s[p] in s;
    }
  }

  /** A string without a '.' never passes. */
  lemma NoDotIsInvalid(s: string)
    requires '.' !in s
    ensures !IsValidEmail(s)
  {
    PatternFoundIffAt(s);
    forall q | 0 <= q < |s| ensures s[q] != '.' {
      assert s[q] in s;
    }
  }

  /** `x@y.z` passes whenever `x`, `y` and `z` are non-empty runs of `\S`. */
  lemma ShapeIsValid(x: string, y: string, z: string)
    requires NonSpaceRun(x, 0, |x|) && NonSpaceRun(y, 0, |y|) && NonSpaceRun(z, 0, |z|)
    ensures IsValidEmail(x + "@" + y + "." + z)
  {
    var s := x + "@" + y + "." + z;
    var i, j := |x|, |x| + 1 + |y|;
    assert forall k :: 0 <= k < |x| ==> s[k] == x[k];
    assert forall k :: 0 <= k < |y| ==> s[i + 1 + k] == y[k];
    assert forall k :: 0 <= k < |z| ==> s[j + 1 + k] == z[k];
    assert s[i] == '@' && s[j] == '.';
    assert NonSpaceRun(s, 0, i) && NonSpaceRun(s, i + 1, j) && NonSpaceRun(s, j + 1, |s|);
    assert s[0..|s|] == s;
    assert WholeMatch(s[0..|s|]);
  }

  /**
   * The match is unanchored and '@' and '.' count as `\S`: whitespace
   * before the match, a second '@' and a '.' right after the '@' all pass.
   */
  lemma UnanchoredExamples()
    ensures IsValidEmail("a b@c.d")
    ensures IsValidEmail("a@b@c.d")
    ensures IsValidEmail("a@..b")
  {
    var s1 := "a b@c.d";
    assert WholeMatch(s1[2..7]) by {
      assert s1[2..7] == "b@c.d";
      var t := s1[2..7];
      assert t[1] == '@' && t[3] == '.';
      assert NonSpaceRun(t, 0, 1) && NonSpaceRun(t, 2, 3) && NonSpaceRun(t, 4, 5);
    }
    var s2 := "a@b@c.d";
    assert WholeMatch(s2[0..7]) by {
      var t := s2[0..7];
      assert t[1] == '@' && t[5] == '.';
      assert NonSpaceRun(t, 0, 1) && NonSpaceRun(t, 2, 5) && NonSpaceRun(t, 6, 7);
    }
    var s3 := "a@..b";
    assert WholeMatch(s3[0..5]) by {
      var t := s3[0..5];
      assert t[1] == '@' && t[3] == '.';
      assert NonSpaceRun(t, 0, 1) && NonSpaceRun(t, 2, 3) && NonSpaceRun(t, 4, 5);
    }
  }

  // ------------------------------------------------------------------ Form

  /** The object handed to `onSubmit`: the confirmation is not part of it. */
  datatype UserData = UserData(name: string, email: string, password: string)

  /** What a submission does: show an alert, or call `onSubmit` once with the data. */
  datatype SubmitResult = Alerted(message: string) | Submitted(data: UserData)

  const MismatchAlert: string := "Password and Confirm Password do not match"
  const InvalidEmailAlert: string := "Invalid Email Address"

  class SignUpForm {
    var name: string
    var email: string
    var password: string
    var confirmPassword: string

    constructor ()
      ensures name == "" && email == "" && password == "" && confirmPassword == ""
    {
      name, email, password, confirmPassword := "", "", "", "";
    }

    method HandleNameChange(value: string)
      modifies this
      ensures name == value
      ensures email == old(email) && password == old(password) && confirmPassword == old(confirmPassword)
    {
      name := value;
    }

    method HandleEmailChange(value: string)
      modifies this
      ensures email == value
      ensures name == old(name) && password == old(password) && confirmPassword == old(confirmPassword)
    {
      email := value;
    }

    method HandlePasswordChange(value: string)
      modifies this
      ensures password == value
      ensures name == old(name) && email == old(email) && confirmPassword == old(confirmPassword)
    {
      password := value;
    }

    method HandleConfirmPasswordChange(value: string)
      modifies this
      ensures confirmPassword == value
      ensures name == old(name) && email == old(email) && password == old(password)
    {
      confirmPassword := value;
    }

    /**
     * `handleSubmit`: the confirmation is compared first (exact string
     * equality), the email shape second; only when both pass is `onSubmit`
     * called, with the three fields other than the confirmation.
     */
    method HandleSubmit() returns (result: SubmitResult)
      ensures password != confirmPassword ==> result == Alerted(MismatchAlert)
      ensures password == confirmPassword && !IsValidEmail(email) ==> result == Alerted(InvalidEmailAlert)
      ensures result.Submitted? <==> password == confirmPassword && IsValidEmail(email)
      ensures result.Submitted? ==> result.data == UserData(name, email, password)
    {
      if password != confirmPassword {
        return Alerted(MismatchAlert);
      }
      if !IsValidEmail(email) {
        return Alerted(InvalidEmailAlert);
      }
      var userData := UserData(name, email, password);
      return Submitted(userData);
    }
  }
}
