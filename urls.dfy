/** Finding a record's detail address from its retrieval hints
    (`extract_url_from_js`, `is_useless_detail_url`, `detail_url_from_row`).
    URL resolution (`urljoin`) is a parameter `join(base, reference)`. */
module Urls {
  import opened Wrappers
  import opened Text
  import opened Rows

  predicate IsQuote(c: char) {
    c == '\'' || c == '"'
  }

  /** Length of the longest prefix of s without a quote character. */
  function QuoteFreeRun(s: string): (n: nat)
    ensures n <= |s|
    ensures forall i :: 0 <= i < n ==> !IsQuote(s[i])
    ensures n == |s| || IsQuote(s[n])
  {
    if s == [] || IsQuote(s[0]) then 0 else 1 + QuoteFreeRun(s[1..])
  }

  /** `re.findall(r"['\"]([^'\"]+)['\"]", s)`: scanning from the left, a
      quote followed by at least one non-quote character and another quote
      yields the text in between, and the scan resumes after the closing
      quote; anywhere else the scan moves on by one character. */
  function QuotedTokens(s: string): (tokens: seq<string>)
    ensures forall k :: 0 <= k < |tokens| ==> tokens[k] != []
    ensures forall k, i :: 0 <= k < |tokens| && 0 <= i < |tokens[k]| ==> !IsQuote(tokens[k][i])
    decreases |s|
  {
    if s == [] then []
    else if IsQuote(s[0]) then
      var n := QuoteFreeRun(s[1..]);
      if 0 < n < |s| - 1 then [s[1..n + 1]] + QuotedTokens(s[n + 2..])
      else QuotedTokens(s[1..])
    else QuotedTokens(s[1..])
  }

  /** A quoted token that is an absolute address or a site-rooted path. */
  predicate LooksAbsolute(t: string) {
    StartsWith(t, "http://") || StartsWith(t, "https://") || StartsWith(t, "/")
  }

  /** A quoted token that mentions a detail page, a PDF or a print view. */
  predicate MentionsDocument(t: string) {
    var folded := CaseFold(t);
    Contains(folded, "adatlap") || Contains(folded, "pdf") || Contains(folded, "print")
  }

  /** Two addresses name the same page once trailing slashes are ignored. */
  predicate SamePage(a: string, b: string) {
    RStripSlash(a) == RStripSlash(b)
  }

  /** The rule `extract_url_from_js` applies to one quoted token: once
      stripped it is not empty, "/" or "#", and either it looks absolute and
      does not resolve to the base page, or it does not look absolute and
      mentions a detail page, a PDF or a print view. */
  predicate Qualifies(token: string, base: string, join: (string, string) -> string) {
    var t := Strip(token);
    && t !in {"", "/", "#"}
    && (if LooksAbsolute(t) then !SamePage(join(base, t), base) else MentionsDocument(t))
  }

  /** What one quoted token contributes to `extract_url_from_js`: None when
      the loop moves on to the next token, Some(address) when it returns. */
  function TokenUrl(token: string, base: string, join: (string, string) -> string): (r: Option<string>)
    ensures r.Some? <==> Qualifies(token, base, join)
    ensures r.Some? ==> r.value == join(base, Strip(token))
    ensures r.Some? ==> LooksAbsolute(Strip(token)) || MentionsDocument(Strip(token))
    ensures r.Some? && LooksAbsolute(Strip(token)) ==> !SamePage(r.value, base)
  {
    var t := Strip(token);
    if t == "" || t == "/" || t == "#" then None
    else if LooksAbsolute(t) then
      var resolved := join(base, t);
      if SamePage(resolved, base) then None else Some(resolved)
    else if MentionsDocument(t) then Some(join(base, t))
    else None
  }

  /** The address of the first token for which `outcome` returns one, or "". */
  function FirstTokenUrl(tokens: seq<string>, outcome: string -> Option<string>): (r: string)
    ensures (forall k :: 0 <= k < |tokens| ==> outcome(tokens[k]).None?) ==> r == ""
    ensures forall k :: 0 <= k < |tokens| && outcome(tokens[k]).Some?
                        && (forall m :: 0 <= m < k ==> outcome(tokens[m]).None?)
                        ==> r == outcome(tokens[k]).value
  {
    if tokens == [] then ""
    else match outcome(tokens[0])
      case Some(u) => u
      case None => FirstTokenUrl(tokens[1..], outcome)
  }

  /** `extract_url_from_js`: the first quoted token of an onclick handler
      that names another page or mentions a detail page, PDF or print view,
      resolved against the base; "" when there is none. */
  function ExtractUrlFromJs(js: string, base: string, join: (string, string) -> string): (r: string)
    ensures js == "" ==> r == ""
    ensures var tokens := QuotedTokens(js);
            (forall k :: 0 <= k < |tokens| ==> !Qualifies(tokens[k], base, join)) ==> r == ""
    ensures var tokens := QuotedTokens(js);
            forall k :: 0 <= k < |tokens| && Qualifies(tokens[k], base, join)
                        && (forall m :: 0 <= m < k ==> !Qualifies(tokens[m], base, join))
                        ==> r == join(base, Strip(tokens[k]))
  {
    if js == "" then ""
    else
      var tokens := QuotedTokens(js);
      var outcome: string -> Option<string> := t => TokenUrl(t, base, join);
      assert forall k :: 0 <= k < |tokens| ==> (outcome(tokens[k]).Some? <==> Qualifies(tokens[k], base, join));
      assert forall k :: 0 <= k < |tokens| && outcome(tokens[k]).Some? ==> outcome(tokens[k]).value == join(base, Strip(tokens[k]));
      FirstTokenUrl(tokens, outcome)
  }

  /** The search returns "" or the address some token yields. */
  lemma {:induction false} FirstTokenUrlIsAnOutcome(tokens: seq<string>, outcome: string -> Option<string>)
    ensures var r := FirstTokenUrl(tokens, outcome);
            r == "" || exists k :: 0 <= k < |tokens| && outcome(tokens[k]) == Some(r)
  {
    if tokens != [] && outcome(tokens[0]).None? {
      FirstTokenUrlIsAnOutcome(tokens[1..], outcome);
      var r := FirstTokenUrl(tokens, outcome);
      if r != "" {
        var k :| 0 <= k < |tokens[1..]| && outcome(tokens[1..][k]) == Some(r);
        assert tokens[k + 1] == tokens[1..][k];
      }
    }
  }

  /** Whatever `extract_url_from_js` returns is empty or the resolution of
      one of the handler's quoted tokens. */
  lemma ExtractUrlFromJsResolvesAToken(js: string, base: string, join: (string, string) -> string)
    ensures var r := ExtractUrlFromJs(js, base, join);
            r == "" || exists t :: t in QuotedTokens(js) && r == join(base, Strip(t))
  {
    if js != "" {
      var tokens := QuotedTokens(js);
      var outcome := t => TokenUrl(t, base, join);
      FirstTokenUrlIsAnOutcome(tokens, outcome);
      var r := FirstTokenUrl(tokens, outcome);
      if r != "" {
        var k :| 0 <= k < |tokens| && outcome(tokens[k]) == Some(r);
        assert tokens[k] in tokens && r == join(base, Strip(tokens[k]));
      }
    }
  }

  /** `is_useless_detail_url`: the address is empty, a bare "/" or "#", or
      resolves to the base page itself. */
  function IsUselessDetailUrl(url: string, base: string, join: (string, string) -> string): (useless: bool)
    ensures useless <==> Strip(url) in {"", "/", "#"} || SamePage(join(base, Strip(url)), base)
  {
    var u := Strip(url);
    u == "" || u == "/" || u == "#" || SamePage(join(base, u), base)
  }

  /** The three retrieval hints a results row may carry. */
  const DetailUrlHint := "_detail_url"
  const DetailHrefHint := "_detail_href"
  const DetailOnclickHint := "_detail_onclick"

  predicate IsJavascriptHref(href: string) {
    StartsWith(CaseFold(href), "javascript:")
  }

  /** `detail_url_from_row`: the captured detail address when usable, else
      the link target resolved against the base when it is a usable,
      non-script link, else the address in the onclick handler, else "". */
  function DetailUrlFromRow(row: Row, base: string, join: (string, string) -> string): (r: string)
    ensures var direct := Normalize(Get(row, DetailUrlHint));
            direct != "" && !IsUselessDetailUrl(direct, base, join) ==> r == direct
    ensures var direct := Normalize(Get(row, DetailUrlHint));
            var href := Normalize(Get(row, DetailHrefHint));
            (&& (direct == "" || IsUselessDetailUrl(direct, base, join))
             && href != "" && !IsJavascriptHref(href) && !IsUselessDetailUrl(href, base, join))
            ==> r == join(base, href)
    ensures var direct := Normalize(Get(row, DetailUrlHint));
            var href := Normalize(Get(row, DetailHrefHint));
            (&& IsUselessDetailUrl(direct, base, join)
             && (href == "" || IsJavascriptHref(href) || IsUselessDetailUrl(href, base, join)))
            ==> r == ExtractUrlFromJs(Normalize(Get(row, DetailOnclickHint)), base, join)
  {
    var direct := Normalize(Get(row, DetailUrlHint));
    var href := Normalize(Get(row, DetailHrefHint));
    if direct != "" && !IsUselessDetailUrl(direct, base, join) then direct
    else if href != "" && !IsJavascriptHref(href) && !IsUselessDetailUrl(href, base, join) then join(base, href)
    else ExtractUrlFromJs(Normalize(Get(row, DetailOnclickHint)), base, join)
  }

  /** Only the three hint columns decide the detail address: two rows that
      agree on them get the same address, whatever their other columns. */
  lemma DetailUrlFromHintsOnly(r1: Row, r2: Row, base: string, join: (string, string) -> string)
    requires Get(r1, DetailUrlHint) == Get(r2, DetailUrlHint)
    requires Get(r1, DetailHrefHint) == Get(r2, DetailHrefHint)
    requires Get(r1, DetailOnclickHint) == Get(r2, DetailOnclickHint)
    ensures DetailUrlFromRow(r1, base, join) == DetailUrlFromRow(r2, base, join)
  {
  }

  /** Every non-empty detail address is the captured address, a resolved
      link, or the resolution of a quoted token of the onclick handler. */
  lemma DetailUrlFromRowSources(row: Row, base: string, join: (string, string) -> string)
    ensures var r := DetailUrlFromRow(row, base, join);
            var js := Normalize(Get(row, DetailOnclickHint));
            || r == ""
            || r == Normalize(Get(row, DetailUrlHint))
            || r == join(base, Normalize(Get(row, DetailHrefHint)))
            || exists t :: t in QuotedTokens(js) && r == join(base, Strip(t))
  {
    ExtractUrlFromJsResolvesAToken(Normalize(Get(row, DetailOnclickHint)), base, join);
  }
}
