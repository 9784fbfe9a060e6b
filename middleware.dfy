/**
 * The two custom middleware classes of the library project:
 * HTTPSRedirectMiddleware (redirect insecure requests, then add security
 * headers to the handler's response) and SecurityHeadersMiddleware (add
 * five security headers where the response lacks them).
 *
 * The Django settings they read are a parameter; the downstream handler is
 * represented by the response it returns.
 */
module Middleware {
  import opened Wrappers
  import opened Text

  /** The settings the middleware reads. `hstsSeconds` is None when
      SECURE_HSTS_SECONDS is not defined at all (`hasattr` is false); the two
      HSTS flags are read with a default of False. */
  datatype Settings = Settings(
    secureSslRedirect: bool,
    hstsSeconds: Option<int>,
    hstsIncludeSubdomains: bool,
    hstsPreload: bool)

  /** What the middleware reads from a request: whether it arrived over
      HTTPS, its path, and the absolute URI of its full path (with query
      string) as the framework builds it. */
  datatype Request = Request(isSecure: bool, path: string, absoluteUri: string)

  const StsHeader := "Strict-Transport-Security"

  /** A response whose status and headers the middleware can change in place.
      Header names are compared exactly. */
  class HttpResponse {
    var status: int
    var headers: map<string, string>

    /** A permanent (301) redirect to `location`. */
    constructor PermanentRedirect(location: string)
      ensures status == 301 && headers == map["Location" := location]
    {
      status := 301;
      headers := map["Location" := location];
    }
  }

  // ---------------------------------------------------------------------
  // HTTPSRedirectMiddleware.enforce_https
  // ---------------------------------------------------------------------

  /** The redirect target of an insecure request, or None when the request
      passes through: a redirect happens exactly when SECURE_SSL_REDIRECT is
      set, the request is not secure and the path contains neither `/health/`
      nor `/ping/`; the target is the absolute URI with its first `http://`
      turned into `https://`. */
  function EnforceHttps(req: Request, s: Settings): (r: Option<string>)
    ensures r.Some? <==>
      s.secureSslRedirect && !req.isSecure
      && !Contains(req.path, "/health/") && !Contains(req.path, "/ping/")
    ensures r.Some? ==> r.value == ReplaceFirst(req.absoluteUri, "http://", "https://")
  {
    if s.secureSslRedirect && !req.isSecure
       && !(Contains(req.path, "/health/") || Contains(req.path, "/ping/"))
    then Some(ReplaceFirst(req.absoluteUri, "http://", "https://"))
    else None
  }

  /** The redirect target differs from the absolute URI only at its first
      `http://`, which becomes `https://`; a URI without `http://` is kept. */
  lemma RedirectTarget(req: Request, s: Settings, i: nat)
    requires EnforceHttps(req, s).Some?
    ensures OccursAt(req.absoluteUri, "http://", i)
              && (forall j :: 0 <= j < i ==> !OccursAt(req.absoluteUri, "http://", j))
            ==> EnforceHttps(req, s).value
                == req.absoluteUri[..i] + "https://" + req.absoluteUri[i + 7..]
    ensures !Contains(req.absoluteUri, "http://") ==> EnforceHttps(req, s).value == req.absoluteUri
  {
    var u := req.absoluteUri;
    if OccursAt(u, "http://", i) && (forall j :: 0 <= j < i ==> !OccursAt(u, "http://", j)) {
      ReplaceFirstAt(u, "http://", "https://", i);
    }
    if !Contains(u, "http://") {
      ReplaceFirstAbsent(u, "http://", "https://");
    }
  }

  /** The usual case: an absolute URI starting with `http://` is redirected
      to the same URI under `https://`. */
  lemma RedirectToHttpsScheme(req: Request, s: Settings)
    requires EnforceHttps(req, s).Some?
    requires |req.absoluteUri| >= 7 && req.absoluteUri[..7] == "http://"
    ensures EnforceHttps(req, s).value == "https://" + req.absoluteUri[7..]
  {
    assert OccursAt(req.absoluteUri, "http://", 0);
    RedirectTarget(req, s, 0);
    assert req.absoluteUri[..0] == [];
  }

  // ---------------------------------------------------------------------
  // The Strict-Transport-Security value (RFC 6797, section 6.1)
  // ---------------------------------------------------------------------

  /** The HSTS policy the settings ask for, if any. */
  datatype HstsPolicy = HstsPolicy(maxAge: nat, includeSubDomains: bool, preload: bool)

  /** The policy added by `add_security_headers`: present only when
      SECURE_HSTS_SECONDS exists and is positive. */
  function HstsPolicyOf(s: Settings): (p: Option<HstsPolicy>)
    ensures p.Some? <==> s.hstsSeconds.Some? && s.hstsSeconds.value > 0
    ensures p.Some? ==>
      p.value.maxAge == s.hstsSeconds.value
      && p.value.includeSubDomains == s.hstsIncludeSubdomains
      && p.value.preload == s.hstsPreload
  {
    if s.hstsSeconds.Some? && s.hstsSeconds.value > 0
    then Some(HstsPolicy(s.hstsSeconds.value, s.hstsIncludeSubdomains, s.hstsPreload))
    else None
  }

  /** The directives after `max-age`: `; includeSubDomains`, then `; preload`
      (a suffix outside RFC 6797), each when its flag is set, in that order. */
  function HstsDirectives(includeSubDomains: bool, preload: bool): string {
    (if includeSubDomains then "; includeSubDomains" else "")
    + (if preload then "; preload" else "")
  }

  /** The header value: `max-age=N` followed by the directives. The value
      carries its policy: the max-age, and each of the two flags exactly
      when it is set, can be read back. */
  function HstsValue(p: HstsPolicy): (r: string)
    ensures ParseHsts(r) == Some(p)
  {
    HstsPartsRoundTrip(p);
    "max-age=" + Decimal(p.maxAge) + HstsDirectives(p.includeSubDomains, p.preload)
  }

  /** Reads the directives back as the two flags. */
  function ParseDirectives(tail: string): Option<(bool, bool)> {
    if tail == "" then Some((false, false))
    else if tail == "; includeSubDomains" then Some((true, false))
    else if tail == "; preload" then Some((false, true))
    else if tail == "; includeSubDomains; preload" then Some((true, true))
    else None
  }

  /** Reads a header value of the shape `HstsValue` produces. */
  function ParseHsts(v: string): Option<HstsPolicy> {
    if |v| < 8 || v[..8] != "max-age=" then None
    else
      var rest := v[8..];
      var k := DigitRun(rest);
      if k == 0 then None
      else
        match ParseDirectives(rest[k..])
        case None => None
        case Some((includeSubDomains, preload)) =>
          Some(HstsPolicy(ParseDecimal(rest[..k]), includeSubDomains, preload))
  }

  /** Each combination of flags gives its own directives. */
  lemma DirectivesRoundTrip(includeSubDomains: bool, preload: bool)
    ensures ParseDirectives(HstsDirectives(includeSubDomains, preload)) == Some((includeSubDomains, preload))
  {
  }

  /** A value made of `max-age=`, a run of digits and text that does not
      start with a digit parses as that number and those directives. */
  lemma {:induction false} ParseHstsOf(digits: string, tail: string)
    requires IsDigits(digits)
    requires tail == [] || !IsDigit(tail[0])
    ensures ParseHsts("max-age=" + (digits + tail))
            == match ParseDirectives(tail)
               case None => None
               case Some((includeSubDomains, preload)) =>
                 Some(HstsPolicy(ParseDecimal(digits), includeSubDomains, preload))
  {
    var v := "max-age=" + (digits + tail);
    assert v[..8] == "max-age=" && v[8..] == digits + tail;
    DigitRunOfDigits(digits, tail);
  }

  /** The directives start with `;`, not a digit. */
  lemma DirectivesStart(includeSubDomains: bool, preload: bool)
    ensures var tail := HstsDirectives(includeSubDomains, preload);
      tail == [] || tail[0] == ';'
  {
  }

  /** The pieces of the header value parse back as the policy. */
  lemma {:induction false} HstsPartsRoundTrip(p: HstsPolicy)
    ensures ParseHsts("max-age=" + Decimal(p.maxAge) + HstsDirectives(p.includeSubDomains, p.preload)) == Some(p)
  {
    var digits := Decimal(p.maxAge);
    var tail := HstsDirectives(p.includeSubDomains, p.preload);
    assert "max-age=" + digits + tail == "max-age=" + (digits + tail);
    DirectivesStart(p.includeSubDomains, p.preload);
    ParseHstsOf(digits, tail);
    DecimalRoundTrip(p.maxAge);
    DirectivesRoundTrip(p.includeSubDomains, p.preload);
  }

  // ---------------------------------------------------------------------
  // HTTPSRedirectMiddleware.add_security_headers
  // ---------------------------------------------------------------------

  /** The four headers `add_security_headers` always sets. */
  const FixedHeaders: map<string, string> := map[
    "X-Content-Type-Options" := "nosniff",
    "X-Frame-Options" := "DENY",
    "X-XSS-Protection" := "1; mode=block",
    "Referrer-Policy" := "same-origin"]

  /** The headers after `add_security_headers`. */
  function Secured(m: map<string, string>, s: Settings): map<string, string> {
    var fixed := m + FixedHeaders;
    if StsHeader !in m && HstsPolicyOf(s).Some?
    then fixed[StsHeader := HstsValue(HstsPolicyOf(s).value)]
    else fixed
  }

  /** What `add_security_headers` does to the headers: the four fixed headers
      take their fixed values whatever was there before;
      Strict-Transport-Security is added only when the settings ask for HSTS
      and the response lacks it, and an existing value is left alone; no
      other header changes or appears. */
  lemma SecuredHeaders(m: map<string, string>, s: Settings)
    ensures var r := Secured(m, s);
      && "X-Content-Type-Options" in r && r["X-Content-Type-Options"] == "nosniff"
      && "X-Frame-Options" in r && r["X-Frame-Options"] == "DENY"
      && "X-XSS-Protection" in r && r["X-XSS-Protection"] == "1; mode=block"
      && "Referrer-Policy" in r && r["Referrer-Policy"] == "same-origin"
    ensures var r := Secured(m, s);
      && (StsHeader in m ==> StsHeader in r && r[StsHeader] == m[StsHeader])
      && (StsHeader !in m ==> (StsHeader in r <==> HstsPolicyOf(s).Some?))
      && (StsHeader !in m && HstsPolicyOf(s).Some? ==> r[StsHeader] == HstsValue(HstsPolicyOf(s).value))
    ensures var r := Secured(m, s);
      && (forall h :: h in m && h !in FixedHeaders && h != StsHeader ==> h in r && r[h] == m[h])
      && (forall h :: h in r ==> h in m || h in FixedHeaders || h == StsHeader)
  {
  }

  /** Assigning the four fixed headers one after another is merging them in. */
  lemma FixedHeadersInTurn(m: map<string, string>)
    ensures m["X-Content-Type-Options" := "nosniff"]["X-Frame-Options" := "DENY"]
             ["X-XSS-Protection" := "1; mode=block"]["Referrer-Policy" := "same-origin"]
            == m + FixedHeaders
  {
  }

  /** Secured, step by step: merge the fixed headers, then add the HSTS
      value when the merged headers lack it and a policy exists. */
  lemma SecuredSteps(m: map<string, string>, s: Settings)
    ensures StsHeader in m + FixedHeaders <==> StsHeader in m
    ensures Secured(m, s)
            == if StsHeader !in m + FixedHeaders && HstsPolicyOf(s).Some?
               then (m + FixedHeaders)[StsHeader := HstsValue(HstsPolicyOf(s).value)]
               else m + FixedHeaders
  {
  }

  /** The value `add_security_headers` builds for the settings' policy. */
  lemma HstsValueOf(s: Settings)
    requires HstsPolicyOf(s).Some?
    ensures HstsValue(HstsPolicyOf(s).value)
            == "max-age=" + Decimal(s.hstsSeconds.value)
               + (if s.hstsIncludeSubdomains then "; includeSubDomains" else "")
               + (if s.hstsPreload then "; preload" else "")
  {
  }

  /** `add_security_headers`, changing the response in place. */
  method AddSecurityHeaders(response: HttpResponse, s: Settings)
    modifies response
    ensures response.headers == Secured(old(response.headers), s)
    ensures response.status == old(response.status)
  {
    ghost var before := response.headers;
    FixedHeadersInTurn(before);
    response.headers := response.headers["X-Content-Type-Options" := "nosniff"];
    response.headers := response.headers["X-Frame-Options" := "DENY"];
    response.headers := response.headers["X-XSS-Protection" := "1; mode=block"];
    response.headers := response.headers["Referrer-Policy" := "same-origin"];
    assert response.headers == before + FixedHeaders;
    SecuredSteps(before, s);

    if s.hstsSeconds.Some? && s.hstsSeconds.value > 0 && StsHeader !in response.headers {
      var hsts := "max-age=" + Decimal(s.hstsSeconds.value);
      if s.hstsIncludeSubdomains {
        hsts := hsts + "; includeSubDomains";
      }
      if s.hstsPreload {
        hsts := hsts + "; preload";
      }
      HstsValueOf(s);
      response.headers := response.headers[StsHeader := hsts];
    }
  }

  // ---------------------------------------------------------------------
  // HTTPSRedirectMiddleware.__call__
  // ---------------------------------------------------------------------

  /** One pass through HTTPSRedirectMiddleware. `handled` stands for the
      response the downstream handler would return. When the request is
      redirected, a fresh 301 response is returned and `handled` is not
      touched (the handler is not consulted and no security header is
      added); otherwise `handled` is returned with the security headers. */
  method HttpsRedirectCall(req: Request, s: Settings, handled: HttpResponse)
    returns (response: HttpResponse)
    modifies handled
    ensures EnforceHttps(req, s).Some? ==>
      && fresh(response)
      && response.status == 301
      && response.headers == map["Location" := EnforceHttps(req, s).value]
      && unchanged(handled)
    ensures EnforceHttps(req, s).None? ==>
      && response == handled
      && response.headers == Secured(old(handled.headers), s)
      && response.status == old(handled.status)
  {
    var redirect := EnforceHttps(req, s);
    if redirect.Some? {
      response := new HttpResponse.PermanentRedirect(redirect.value);
      return;
    }
    response := handled;
    AddSecurityHeaders(response, s);
  }

  // ---------------------------------------------------------------------
  // SecurityHeadersMiddleware.__call__
  // ---------------------------------------------------------------------

  /** The five headers of SecurityHeadersMiddleware, in dictionary order. */
  const DefaultHeaderItems: seq<(string, string)> := [
    ("X-Content-Type-Options", "nosniff"),
    ("X-Frame-Options", "DENY"),
    ("X-XSS-Protection", "1; mode=block"),
    ("Referrer-Policy", "strict-origin-when-cross-origin"),
    ("Permissions-Policy", "geolocation=(), microphone=(), camera=()")]

  /** The same five headers as a map from name to value. */
  const DefaultHeaders: map<string, string> := map[
    DefaultHeaderItems[0].0 := DefaultHeaderItems[0].1,
    DefaultHeaderItems[1].0 := DefaultHeaderItems[1].1,
    DefaultHeaderItems[2].0 := DefaultHeaderItems[2].1,
    DefaultHeaderItems[3].0 := DefaultHeaderItems[3].1,
    DefaultHeaderItems[4].0 := DefaultHeaderItems[4].1]

  /** The headers after SecurityHeadersMiddleware. */
  function WithDefaultHeaders(m: map<string, string>): map<string, string> {
    DefaultHeaders + m
  }

  /** After SecurityHeadersMiddleware all five names are present, existing
      values are kept and missing names take their defaults. */
  lemma DefaultHeadersInserted(m: map<string, string>)
    ensures var r := WithDefaultHeaders(m);
      && r.Keys == m.Keys + DefaultHeaders.Keys
      && (forall h :: h in m ==> r[h] == m[h])
      && (forall h :: h in DefaultHeaders && h !in m ==> r[h] == DefaultHeaders[h])
  {
  }

  /** Applying the defaults a second time changes nothing. */
  lemma WithDefaultHeadersIdempotent(m: map<string, string>)
    ensures WithDefaultHeaders(WithDefaultHeaders(m)) == WithDefaultHeaders(m)
  {
  }

  /** The headers once the defaults for the names in `names` have been
      inserted where missing. */
  function WithDefaultsFor(m: map<string, string>, names: set<string>): map<string, string>
    requires names <= DefaultHeaders.Keys
  {
    map h | h in m.Keys + names :: if h in m then m[h] else DefaultHeaders[h]
  }

  /** Inserting one more default where it is missing. */
  lemma WithDefaultsForStep(m: map<string, string>, names: set<string>, h: string)
    requires names <= DefaultHeaders.Keys && h in DefaultHeaders
    ensures var c := WithDefaultsFor(m, names);
      WithDefaultsFor(m, names + {h}) == if h in c then c else c[h := DefaultHeaders[h]]
  {
  }

  /** The names of the first `i` items of the dictionary. */
  function ItemNames(i: nat): (names: set<string>)
    requires i <= |DefaultHeaderItems|
    ensures names <= DefaultHeaders.Keys
  {
    if i == 0 then {} else ItemNames(i - 1) + {DefaultHeaderItems[i - 1].0}
  }

  /** The dictionary's items name exactly the five headers. */
  lemma DefaultHeaderNames()
    ensures ItemNames(|DefaultHeaderItems|) == DefaultHeaders.Keys
  {
    assert ItemNames(|DefaultHeaderItems|) == {
      DefaultHeaderItems[0].0, DefaultHeaderItems[1].0, DefaultHeaderItems[2].0,
      DefaultHeaderItems[3].0, DefaultHeaderItems[4].0};
  }

  /** Once every name has been visited, the defaults are all inserted. */
  lemma WithDefaultsForAll(m: map<string, string>)
    ensures WithDefaultsFor(m, DefaultHeaders.Keys) == WithDefaultHeaders(m)
  {
  }

  /** The loop of SecurityHeadersMiddleware.__call__, changing the handler's
      response in place. */
  method SecurityHeadersCall(response: HttpResponse)
    modifies response
    ensures response.headers == WithDefaultHeaders(old(response.headers))
    ensures response.status == old(response.status)
  {
    ghost var before := response.headers;
    ghost var visited: set<string> := {};
    assert WithDefaultsFor(before, visited) == before;
    var i := 0;
    while i < |DefaultHeaderItems|
      invariant 0 <= i <= |DefaultHeaderItems|
      invariant response.status == old(response.status)
      invariant visited == ItemNames(i)
      invariant response.headers == WithDefaultsFor(before, visited)
    {
      var (header, value) := DefaultHeaderItems[i];
      assert header in DefaultHeaders && DefaultHeaders[header] == value;
      WithDefaultsForStep(before, visited, header);
      if header !in response.headers {
        response.headers := response.headers[header := value];
      }
      visited := visited + {header};
      i := i + 1;
    }
    DefaultHeaderNames();
    WithDefaultsForAll(before);
  }
}
