/**
 * The address-bar heuristic that turns whatever the user typed into a URL
 * the render surface can load. It never rejects input.
 */
module Resolver {

  const HTTP := "http://"
  const HTTPS := "https://"
  const SEARCH_PREFIX := "https://www.google.com/search?q="
  const SEARCH_SUFFIX := "&igu=1"

  predicate StartsWith(s: string, prefix: string) {
    |prefix| <= |s| && s[..|prefix|] == prefix
  }

  /** The input already names one of the two schemes (case-sensitive, as in the shell). */
  predicate HasScheme(s: string) {
    StartsWith(s, HTTP) || StartsWith(s, HTTPS)
  }

  /** A bare host name: it has a dot and no space character (other whitespace is not looked at). */
  predicate LooksLikeHost(s: string) {
    '.' in s && ' ' !in s
  }

  /**
   * Resolves `input`; `enc` stands for the percent-encoding of a query
   * component, which the model leaves uninterpreted.
   */
  function Resolve(input: string, enc: string -> string): (r: string)
    ensures HasScheme(r)
    ensures r == input <==> HasScheme(input)
    ensures !HasScheme(input) && LooksLikeHost(input) ==> r == HTTPS + input
    ensures !HasScheme(input) && !LooksLikeHost(input) ==> r == SEARCH_PREFIX + enc(input) + SEARCH_SUFFIX
  {
    if HasScheme(input) then
      input
    else if LooksLikeHost(input) then
      var r := HTTPS + input;
      assert r[..|HTTPS|] == HTTPS;
      r
    else
      var r := SEARCH_PREFIX + enc(input) + SEARCH_SUFFIX;
      assert r[..|HTTPS|] == SEARCH_PREFIX[..|HTTPS|] == HTTPS;
      r
  }

  /** Re-submitting a resolved URL (the reload button does this) leaves it unchanged. */
  lemma ResolveIdempotent(input: string, enc: string -> string)
    ensures Resolve(Resolve(input, enc), enc) == Resolve(input, enc)
  {
  }

  /** The three documented examples: a bare host, a full url, and a search. */
  lemma ResolveExamples(enc: string -> string)
    ensures Resolve("openai.com", enc) == "https://openai.com"
    ensures Resolve("https://x.com", enc) == "https://x.com"
    ensures Resolve("hello world", enc) == SEARCH_PREFIX + enc("hello world") + SEARCH_SUFFIX
  {
    var host, full, query := "openai.com", "https://x.com", "hello world";
    assert host[0] != HTTP[0] && host[6] == '.';
    assert !HasScheme(host) && LooksLikeHost(host);
    assert full[..|HTTPS|] == HTTPS;
    assert query[1] != HTTP[1] && query[5] == ' ';
    assert !HasScheme(query) && !LooksLikeHost(query);
  }
}
