/** The frontend's API base URL: the `VITE_API_URL` setting, or a local
    default, rewritten so that it always ends in `/api`. */
module ApiUrl {
  import opened Wrappers
  import opened Strings

  const DefaultApiUrl := "http://localhost:3001/api"
  const ApiSuffix := "/api"

  /** `VITE_API_URL || default`: an absent or empty setting falls back to the
      default. */
  function EnvUrl(setting: Option<string>): (r: string)
    ensures setting.Some? && setting.value != "" ==> r == setting.value
    ensures setting.None? || setting.value == "" ==> r == DefaultApiUrl
  {
    match setting
    case None => DefaultApiUrl
    case Some(v) => if v == "" then DefaultApiUrl else v
  }

  predicate AllSlashes(s: string) {
    forall i :: 0 <= i < |s| ==> s[i] == '/'
  }

  /** `s.replace(/\/+$/, '')`: the longest prefix of `s` that does not end
      in `/`; what is cut off is slashes only. */
  function StripTrailingSlashes(s: string): (r: string)
    ensures |r| <= |s| && r == s[..|r|]
    ensures AllSlashes(s[|r|..])
    ensures r == [] || r[|r| - 1] != '/'
    decreases |s|
  {
    if s != [] && s[|s| - 1] == '/' then
      var r := StripTrailingSlashes(s[..|s| - 1]);
      assert s[|r|..] == s[..|s| - 1][|r|..] + ['/'];
      r
    else
      s
  }

  /** The `API_URL` expression: an input that already ends in `/api` is kept
      as it is; any other has its trailing slashes stripped and `/api`
      appended. */
  function BaseUrl(u: string): (r: string)
    ensures EndsWith(r, ApiSuffix)
    ensures EndsWith(u, ApiSuffix) ==> r == u
    ensures !EndsWith(u, ApiSuffix) ==>
              exists k :: 0 <= k <= |u| && r == u[..k] + ApiSuffix && AllSlashes(u[k..]) && (k == 0 || u[k - 1] != '/')
  {
    if EndsWith(u, ApiSuffix) then u
    else
      var base := StripTrailingSlashes(u);
      var r := base + ApiSuffix;
      assert r[|r| - |ApiSuffix|..] == ApiSuffix;
      assert u[..|base|] == base;
      r
  }

  /** The base URL the client is created with. */
  function ApiBaseUrl(setting: Option<string>): (r: string)
    ensures EndsWith(r, ApiSuffix)
    ensures setting.Some? && EndsWith(setting.value, ApiSuffix) ==> r == setting.value
  {
    BaseUrl(EnvUrl(setting))
  }

  /** Normalising a normalised URL changes nothing. */
  lemma BaseUrlIdempotent(u: string)
    ensures BaseUrl(BaseUrl(u)) == BaseUrl(u)
  {
  }

  /** Without a setting the default is used, and it passes through unchanged. */
  lemma DefaultPassesThrough()
    ensures ApiBaseUrl(None) == DefaultApiUrl
    ensures ApiBaseUrl(Some("")) == DefaultApiUrl
  {
  }

  /** Trailing slashes collapse before `/api` is appended. */
  lemma TrailingSlashesCollapse()
    ensures BaseUrl("http://h:1//") == "http://h:1/api"
  {
    var a := "http://h:1//";
    assert a[|a| - 1] == '/';
    assert a[..|a| - 1] == "http://h:1/";
    assert a[..|a| - 1][..|a| - 2] == "http://h:1";
    assert StripTrailingSlashes("http://h:1") == "http://h:1";
  }

  /** Only a literal `/api` suffix is recognised: a trailing slash after it
      yields a doubled `/api/api`. */
  lemma SlashAfterApiDoubles()
    ensures BaseUrl("x/api/") == "x/api/api"
  {
    var c := "x/api/";
    assert c[|c| - 1] == '/';
    assert c[..|c| - 1] == "x/api";
    assert StripTrailingSlashes("x/api") == "x/api";
  }
}
