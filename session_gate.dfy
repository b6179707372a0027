/**
 * The test `check_login_and_navigate` applies to the browser's current URL
 * after opening the tokens page: a URL that mentions `login` or `auth`, in
 * any letter case, means the session was sent to a sign-in page.
 */
module SessionGate {
  import opened Text

  /** `"login" in url.lower() or "auth" in url.lower()`. */
  function RedirectedToLogin(url: string): (r: bool)
    ensures r <==> Occurs("login", Lower(url)) || Occurs("auth", Lower(url))
  {
    var lower := Lower(url);
    Contains(lower, "login") || Contains(lower, "auth")
  }

  /** Only the lower-cased URL matters: the test ignores letter case. */
  lemma RedirectIgnoresCase(url: string)
    ensures RedirectedToLogin(Lower(url)) == RedirectedToLogin(url)
  {
    LowerIdempotent(url);
  }

  /** A marker word found in the URL is found in any URL that contains it. */
  lemma RedirectSurvivesContext(p: string, url: string, q: string)
    requires RedirectedToLogin(url)
    ensures RedirectedToLogin(p + url + q)
  {
    LowerAppend(p + url, q);
    LowerAppend(p, url);
    var whole := Lower(p) + Lower(url) + Lower(q);
    assert Lower(p + url + q) == whole;
    if Occurs("login", Lower(url)) {
      OccursInContext("login", Lower(url), Lower(p), Lower(q));
    } else {
      OccursInContext("auth", Lower(url), Lower(p), Lower(q));
    }
  }

  /** Some spelling of `word`, in any letter case, starts at index `i` of `url`. */
  ghost predicate SpelledAt(url: string, word: string, i: int)
  {
    0 <= i && i + |word| <= |url| && Lower(url[i..i + |word|]) == word
  }

  /** `word` occurs in the lower-cased URL exactly where some spelling of it occurs in the URL. */
  lemma {:induction false} OccursIffSpelled(url: string, word: string)
    ensures Occurs(word, Lower(url)) <==> exists i :: SpelledAt(url, word, i)
  {
    var lower := Lower(url);
    if Occurs(word, lower) {
      var i :| OccursAt(word, lower, i);
      LowerSlice(url, i, i + |word|);
      assert SpelledAt(url, word, i);
    }
    if exists i :: SpelledAt(url, word, i) {
      var i :| SpelledAt(url, word, i);
      LowerSlice(url, i, i + |word|);
      assert OccursAt(word, lower, i);
    }
  }

  /**
   * The test holds exactly when `login` or `auth` is spelled somewhere in
   * the URL as it stands, `LOGIN`, `Login`, `AUTH` and every other mix of
   * cases included.
   */
  lemma RedirectIffSpelled(url: string)
    ensures RedirectedToLogin(url) <==>
            (exists i :: SpelledAt(url, "login", i)) || (exists i :: SpelledAt(url, "auth", i))
  {
    OccursIffSpelled(url, "login");
    OccursIffSpelled(url, "auth");
  }
}
