/**
 * The `ab-test-variant` cookie: the `Set-Cookie` value the response decorator
 * writes, and the name-value pair a browser keeps from it (section 5.2 of
 * RFC 6265), which comes back as `req.cookies["ab-test-variant"]` on the next
 * request.
 */
module Cookies {
  import opened Wrappers

  const COOKIE_NAME: string := "ab-test-variant"

  /** `ab-test-variant=${variant}; Path=/`. */
  function SetCookieHeader(variant: string): (h: string)
    ensures |h| == |COOKIE_NAME| + 1 + |variant| + 8
    ensures h[..|COOKIE_NAME| + 1] == COOKIE_NAME + "="
    ensures h[|COOKIE_NAME| + 1..|h| - 8] == variant
    ensures h[|h| - 8..] == "; Path=/"
  {
    COOKIE_NAME + "=" + variant + "; Path=/"
  }

  /** Position of the first `ch` in `s`, or `|s|` when there is none. */
  function IndexOf(s: string, ch: char): (n: nat)
    ensures n <= |s| && ch !in s[..n]
    ensures n < |s| ==> s[n] == ch
  {
    if s == [] then 0
    else if s[0] == ch then 0
    else 1 + IndexOf(s[1..], ch)
  }

  /**
   * The cookie a `Set-Cookie` value sets (section 5.2 of RFC 6265, steps 1 to 5):
   * the text before the first ';' is the name-value pair; without '=' or with an
   * empty name the header is ignored; otherwise the name is the text before the
   * first '=' and the value the text after it.
   */
  function CookiePair(header: string): (r: Option<(string, string)>)
    ensures r.Some? ==> r.value.0 != [] && ';' !in r.value.0 && '=' !in r.value.0 && ';' !in r.value.1
  {
    var pair := header[..IndexOf(header, ';')];
    var eq := IndexOf(pair, '=');
    if eq == |pair| || eq == 0 then None
    else Some((pair[..eq], pair[eq + 1..]))
  }

  /** The first `ch` sits at `k` when `s[k]` is `ch` and no earlier character is. */
  lemma IndexOfFirst(s: string, ch: char, k: nat)
    requires k < |s| && s[k] == ch && ch !in s[..k]
    ensures IndexOf(s, ch) == k
  {
  }

  /** A browser given the decorator's header keeps the cookie `ab-test-variant` with exactly the written value. */
  lemma SetCookieRoundTrip(variant: string)
    requires ';' !in variant
    ensures CookiePair(SetCookieHeader(variant)) == Some((COOKIE_NAME, variant))
  {
    var h := SetCookieHeader(variant);
    var semi := |COOKIE_NAME| + 1 + |variant|;
    assert h[..semi] == COOKIE_NAME + "=" + variant;
    assert ';' !in h[..semi] by {
      assert forall i :: 0 <= i < semi ==> h[..semi][i] == if i < |COOKIE_NAME| then COOKIE_NAME[i] else if i == |COOKIE_NAME| then '=' else variant[i - |COOKIE_NAME| - 1];
    }
    IndexOfFirst(h, ';', semi);
    var pair := h[..semi];
    assert '=' !in pair[..|COOKIE_NAME|] by {
      assert pair[..|COOKIE_NAME|] == COOKIE_NAME;
    }
    IndexOfFirst(pair, '=', |COOKIE_NAME|);
    assert pair[..|COOKIE_NAME|] == COOKIE_NAME;
    assert pair[|COOKIE_NAME| + 1..] == variant;
  }
}
