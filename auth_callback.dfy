/**
 * The sign-in callback's choice of where to send the user afterwards: the
 * `redirect` query value, kept only as a path on this site.
 */
module AuthCallback {
  import opened Wrappers
  import opened JsString

  const DashboardPath := "/dashboard"

  /** An absolute URL with one of the two web schemes. */
  predicate IsHttpUrl(s: string) {
    StartsWith(s, "http://") || StartsWith(s, "https://")
  }

  /** A value starting with `/` is never taken for an absolute URL. */
  lemma SlashIsNotHttp(s: string)
    requires |s| >= 1 && s[0] == '/'
    ensures !IsHttpUrl(s)
  {
    assert "http://"[0] == 'h' && "https://"[0] == 'h';
  }

  /**
   * `getSafeRedirectPath(value)`: `/dashboard` for a blank value or one
   * starting with `http://` or `https://`; otherwise the trimmed value, with
   * a `/` put in front when it does not already start with one.
   */
  function GetSafeRedirectPath(value: Option<string>): (r: string)
    ensures |r| >= 1 && r[0] == '/'
  {
    var trimmed := Trim(value.GetOr(""));
    if trimmed == "" then DashboardPath
    else if IsHttpUrl(trimmed) then DashboardPath
    else if StartsWith(trimmed, "/") then StartsWithHead(trimmed, "/"); trimmed
    else "/" + trimmed
  }

  /**
   * The four cases: a blank or absent value and an absolute http(s) URL go
   * to the dashboard; a trimmed value starting with `/` is kept; any other
   * gets a leading `/`.
   */
  lemma RedirectCases(value: Option<string>)
    ensures var trimmed := Trim(value.GetOr(""));
            var r := GetSafeRedirectPath(value);
            && (trimmed == "" ==> r == DashboardPath)
            && (IsHttpUrl(trimmed) ==> r == DashboardPath)
            && (trimmed != "" && trimmed[0] == '/' ==> r == trimmed)
            && (trimmed != "" && trimmed[0] != '/' && !IsHttpUrl(trimmed) ==> r == "/" + trimmed)
  {
    var trimmed := Trim(value.GetOr(""));
    if trimmed != "" && trimmed[0] == '/' {
      SlashIsNotHttp(trimmed);
      assert StartsWith(trimmed, "/");
    }
  }

  /** The result has no surrounding whitespace, so it is its own safe path. */
  lemma RedirectIdempotent(value: Option<string>)
    ensures IsTrimmed(GetSafeRedirectPath(value))
    ensures GetSafeRedirectPath(Some(GetSafeRedirectPath(value))) == GetSafeRedirectPath(value)
  {
    var r := GetSafeRedirectPath(value);
    var trimmed := Trim(value.GetOr(""));
    if trimmed != "" && !StartsWith(trimmed, "/") && !IsHttpUrl(trimmed) {
      assert r == "/" + trimmed;
      assert r[|r| - 1] == trimmed[|trimmed| - 1];
    }
    TrimOfTrimmed(r);
    SlashIsNotHttp(r);
    assert StartsWith(r, "/");
  }

  /**
   * Only the two absolute schemes are refused: a protocol-relative value
   * such as `//example.com` starts with `/` and comes back unchanged.
   */
  lemma ProtocolRelativeKept(s: string)
    requires IsTrimmed(s) && StartsWith(s, "//")
    ensures GetSafeRedirectPath(Some(s)) == s
  {
    TrimOfTrimmed(s);
    assert s[0] == s[..2][0] == '/';
    SlashIsNotHttp(s);
    assert StartsWith(s, "/");
  }
}
