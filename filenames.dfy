/** Artifact file names (`sanitize_filename`, `build_pdf_path`). */
module FileNames {
  import opened Wrappers
  import opened Text
  import opened Rows

  /** Python's `\w` under re.UNICODE, for ASCII, Latin-1 and Latin
      Extended-A: letters, digits, the underscore, and the Latin-1 letters,
      superscript digits and vulgar fractions. */
  predicate IsWordChar(c: char) {
    ('a' <= c <= 'z') || ('A' <= c <= 'Z') || ('0' <= c <= '9') || c == '_'
    || c == '\U{aa}' || c == '\U{b2}' || c == '\U{b3}' || c == '\U{b5}' || c == '\U{b9}' || c == '\U{ba}'
    || ('\U{bc}' <= c <= '\U{be}')
    || ('\U{c0}' <= c <= '\U{ff}' && c != '\U{d7}' && c != '\U{f7}')
    || ('\U{100}' <= c <= '\U{17f}')
  }

  /** The characters the pattern `[^\w\-.]` leaves alone. */
  predicate Allowed(c: char) {
    IsWordChar(c) || c == '-' || c == '.'
  }

  predicate Disallowed(c: char) {
    !Allowed(c)
  }

  /** `re.sub(r"[^\w\-.]+", "_", s)`: every maximal run of other characters
      becomes a single underscore. */
  function ReplaceRuns(s: string): (r: string)
    ensures forall i :: 0 <= i < |r| ==> Allowed(r[i])
    ensures |r| <= |s|
    ensures r == [] <==> s == []
    ensures s != [] && Allowed(s[0]) ==> r == [s[0]] + ReplaceRuns(s[1..])
    ensures s != [] && !Allowed(s[0]) ==> r[0] == '_'
    ensures s != [] && !Allowed(s[0]) ==> r == "_" + ReplaceRuns(DropWhile(s[1..], Disallowed))
    decreases |s|
  {
    if s == [] then []
    else if Allowed(s[0]) then [s[0]] + ReplaceRuns(s[1..])
    else
      var rest := DropWhile(s[1..], Disallowed);
      "_" + ReplaceRuns(rest)
  }

  /** A file-name part as `sanitize_filename` leaves it: between 1 and 90
      allowed characters, not starting with a dot or an underscore. */
  predicate IsSanitized(r: string) {
    && 1 <= |r| <= 90
    && (forall i :: 0 <= i < |r| ==> Allowed(r[i]))
    && r[0] != '.' && r[0] != '_'
  }

  predicate IsDotOrUnderscore(c: char) {
    c == '.' || c == '_'
  }

  /** `sanitize_filename`: replace the runs, strip dots and underscores from
      both ends, keep at most 90 characters, and fall back to "unknown". */
  function SanitizeFilename(value: string): (r: string)
    ensures IsSanitized(r)
  {
    var replaced := ReplaceRuns(value);
    var cleaned := StripBy(replaced, IsDotOrUnderscore);
    StrippedStaysAllowed(replaced);
    UnknownIsSanitized();
    TruncatedIsSanitized(cleaned);
    if cleaned == "" then "unknown"
    else if |cleaned| <= 90 then cleaned
    else cleaned[..90]
  }

  /** Stripping dots and underscores keeps only allowed characters and
      leaves neither at the front. */
  lemma StrippedStaysAllowed(s: string)
    requires forall i :: 0 <= i < |s| ==> Allowed(s[i])
    ensures var c := StripBy(s, IsDotOrUnderscore);
            && (forall i :: 0 <= i < |c| ==> Allowed(c[i]))
            && (c != [] ==> !IsDotOrUnderscore(c[0]))
  {
    StripBySlice(s, IsDotOrUnderscore);
    StripByEndsKept(s, IsDotOrUnderscore);
  }

  lemma UnknownIsSanitized()
    ensures IsSanitized("unknown")
  {
    var u := "unknown";
    forall i | 0 <= i < |u| ensures Allowed(u[i]) {
      assert 'a' <= u[i] <= 'z';
    }
  }

  /** Cutting a clean name to 90 characters keeps it clean. */
  lemma TruncatedIsSanitized(c: string)
    requires forall i :: 0 <= i < |c| ==> Allowed(c[i])
    requires c != [] ==> !IsDotOrUnderscore(c[0])
    ensures c != [] ==> IsSanitized(if |c| <= 90 then c else c[..90])
  {
  }

  lemma {:induction false} ReplaceRunsKeepsAllowed(s: string)
    requires forall i :: 0 <= i < |s| ==> Allowed(s[i])
    ensures ReplaceRuns(s) == s
  {
    if s != [] {
      ReplaceRunsKeepsAllowed(s[1..]);
      assert s == [s[0]] + s[1..];
    }
  }

  /** A name that is already safe (and does not end with a dot or an
      underscore) is returned unchanged. */
  lemma SanitizeFilenameKeepsSafe(s: string)
    requires IsSanitized(s) && !IsDotOrUnderscore(s[|s| - 1])
    ensures SanitizeFilename(s) == s
  {
    ReplaceRunsKeepsAllowed(s);
    assert DropWhile(s, IsDotOrUnderscore) == s;
    assert DropWhileEnd(s, IsDotOrUnderscore) == s;
  }

  /** Sanitising is idempotent on every result that does not end in a dot
      or an underscore (truncation to 90 characters can leave one there). */
  lemma SanitizeFilenameIdempotent(value: string)
    requires !IsDotOrUnderscore(SanitizeFilename(value)[|SanitizeFilename(value)| - 1])
    ensures SanitizeFilename(SanitizeFilename(value)) == SanitizeFilename(value)
  {
    SanitizeFilenameKeepsSafe(SanitizeFilename(value));
  }

  /** Python's `s[:n]`. */
  function Prefix(s: string, n: nat): (r: string)
    ensures |r| <= n && StartsWith(s, r)
    ensures |s| >= n ==> |r| == n
    ensures |s| <= n ==> r == s
  {
    if |s| <= n then s else s[..n]
  }

  /** Registration number used in the artifact name (any column, hints
      included, as `first_row_value_by_markers` scans them all). */
  function RegId(row: Row): string {
    FirstRowValueByMarkers(row, IdMarkers)
  }

  function DocName(row: Row): string {
    FirstRowValueByMarkers(row, NameMarkers)
  }

  /** The 10-hex-digit digest of `row_key(row) + "|" + detail_url`. */
  function Digest(row: Row, detailUrl: string, sha1Hex: string -> string): string {
    Prefix(sha1Hex(RowKey(row) + "|" + detailUrl), 10)
  }

  /** `build_pdf_path`: the artifact's file name inside the artifact
      directory, `<id>_<name>_<digest>.pdf`, with "id" and "orvos" standing
      in for a missing registration number or name. */
  function PdfFileName(row: Row, detailUrl: string, sha1Hex: string -> string): (name: string)
    ensures var idPart := SanitizeFilename(if RegId(row) != "" then RegId(row) else "id");
            var namePart := SanitizeFilename(if DocName(row) != "" then DocName(row) else "orvos");
            var digest := Digest(row, detailUrl, sha1Hex);
            && name == idPart + "_" + namePart + "_" + digest + ".pdf"
            && IsSanitized(idPart) && IsSanitized(namePart) && |digest| <= 10
  {
    var regId := RegId(row);
    var docName := DocName(row);
    var idPart := SanitizeFilename(if regId != "" then regId else "id");
    var namePart := SanitizeFilename(if docName != "" then docName else "orvos");
    idPart + "_" + namePart + "_" + Digest(row, detailUrl, sha1Hex) + ".pdf"
  }

  /** The artifact name depends on the row only through its key, its
      registration number and its name. */
  lemma PdfFileNameDeterminedByKey(r1: Row, r2: Row, detailUrl: string, sha1Hex: string -> string)
    requires RowKey(r1) == RowKey(r2)
    requires RegId(r1) == RegId(r2) && DocName(r1) == DocName(r2)
    ensures PdfFileName(r1, detailUrl, sha1Hex) == PdfFileName(r2, detailUrl, sha1Hex)
  {
  }

  /** Overwriting a column that `accept` rejects, with a value it still
      rejects, does not move the first accepted column. */
  lemma {:induction false} FirstMatchPutRejected(row: Row, name: string, value: string, accept: Field -> bool)
    requires forall v :: !accept(Field(name, v))
    ensures FirstMatch(Put(row, name, value), accept) == FirstMatch(row, accept)
  {
    if row != [] && row[0].name != name {
      FirstMatchPutRejected(row[1..], name, value, accept);
      assert Put(row, name, value) == [row[0]] + Put(row[1..], name, value);
    }
  }

  /** Text that lacks the first letter of `sub` does not contain it. */
  lemma {:induction false} NotContainsWithoutHead(s: string, sub: string)
    requires |sub| > 0 && sub[0] !in s
    ensures !Contains(s, sub)
  {
    if s != [] {
      assert s[0] != sub[0];
      assert forall c :: c in s[1..] ==> c in s;
      NotContainsWithoutHead(s[1..], sub);
    }
  }

  /** A label whose casefold contains none of the markers is not marked. */
  lemma {:induction false} NotMarkedWithoutMarkers(name: string, markers: seq<string>)
    requires forall k :: 0 <= k < |markers| ==> !Contains(CaseFold(name), markers[k])
    ensures !Marked(name, markers)
  {
    if markers != [] {
      NotMarkedWithoutMarkers(name, markers[1..]);
    }
  }

  /** Lower-case ASCII letters and the underscore are their own casefold. */
  lemma LowerAsciiFolded(c: char)
    requires 'a' <= c <= 'z' || c == '_'
    ensures Folded(c)
  {
  }

  lemma QueryFolded()
    ensures CaseFold("_query") == "_query"
  {
    var q := "_query";
    forall i | 0 <= i < |q| ensures Folded(q[i]) {
      LowerAsciiFolded(q[i]);
    }
    CaseFoldKeepsFolded(q);
  }

  /** Text shorter than `sub` does not contain it. */
  lemma {:induction false} NotContainsLonger(s: string, sub: string)
    requires |sub| > |s|
    ensures !Contains(s, sub)
  {
    if s != [] {
      NotContainsLonger(s[1..], sub);
    }
  }

  /** Every identifier marker is longer than the `_query` label. */
  lemma QueryIsNoIdColumn()
    ensures !Marked("_query", IdMarkers)
  {
    QueryFolded();
    forall k | 0 <= k < |IdMarkers| ensures !Contains(CaseFold("_query"), IdMarkers[k]) {
      NotContainsLonger("_query", IdMarkers[k]);
    }
    NotMarkedWithoutMarkers("_query", IdMarkers);
  }

  /** The name markers start with an n, which `_query` does not hold. */
  lemma QueryIsNoNameColumn()
    ensures !Marked("_query", NameMarkers)
  {
    QueryFolded();
    NotContainsWithoutHead("_query", NameMarkers[0]);
    NotContainsWithoutHead("_query", NameMarkers[1]);
    NotMarkedWithoutMarkers("_query", NameMarkers);
  }

  /** The `_query` tag is neither an identifier nor a name column. */
  lemma QueryIsNoMarker()
    ensures !Marked("_query", IdMarkers) && !Marked("_query", NameMarkers)
  {
    QueryIsNoIdColumn();
    QueryIsNoNameColumn();
  }

  /** Writing a column whose name carries none of the markers does not
      change the first marked value. */
  lemma FirstValuePutUnmarked(row: Row, name: string, value: string, markers: seq<string>)
    requires !Marked(name, markers)
    ensures FirstRowValueByMarkers(Put(row, name, value), markers) == FirstRowValueByMarkers(row, markers)
  {
    FirstMatchPutRejected(row, name, value, f => Candidate(f, markers));
  }

  /** Tagging a row with the term it was found under does not change its
      artifact name: the same record found again under another term maps to
      the same file, which the existence check then finds. */
  lemma PdfFileNameIgnoresQuery(row: Row, term: string, detailUrl: string, sha1Hex: string -> string)
    ensures PdfFileName(Put(row, "_query", term), detailUrl, sha1Hex) == PdfFileName(row, detailUrl, sha1Hex)
  {
    var tagged := Put(row, "_query", term);
    QueryIsNoMarker();
    assert RowKey(tagged) == RowKey(row) by {
      RowKeyIgnoresHints(row, "_query", term);
    }
    FirstValuePutUnmarked(row, "_query", term, IdMarkers);
    FirstValuePutUnmarked(row, "_query", term, NameMarkers);
    PdfFileNameDeterminedByKey(tagged, row, detailUrl, sha1Hex);
  }
}
