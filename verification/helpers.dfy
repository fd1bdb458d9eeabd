/** The global helper functions of the package: optional-marker stripping,
    file-name validation and the swagger-ui asset allow-list. */
module Helpers {

  import opened Wrappers
  import opened Errors
  import opened Strings

  /** `strip_optional_char`: drop every `?` of an optional route segment. */
  function StripOptionalChar(uri: string): (r: string)
    ensures '?' !in r
    ensures |r| <= |uri|
    ensures '?' !in uri ==> r == uri
  {
    RemoveChar(uri, '?')
  }

  /** Stripping works piecewise: together with the one-character cases below it
      says that exactly the `?` characters go and the rest stay in order. */
  lemma StripOptionalCharPiecewise(a: string, b: string)
    ensures StripOptionalChar(a + b) == StripOptionalChar(a) + StripOptionalChar(b)
    ensures StripOptionalChar("?") == ""
    ensures forall c :: c != '?' ==> StripOptionalChar([c]) == [c]
  {
    RemoveCharAppend(a, b, '?');
  }

  /** Stripping twice is stripping once. */
  lemma StripOptionalCharIdempotent(uri: string)
    ensures StripOptionalChar(StripOptionalChar(uri)) == StripOptionalChar(uri)
  {
  }

  /** A character of the class `[-_.\w]` (ASCII `\w`). */
  predicate FileNameChar(c: char) {
    c == '-' || c == '_' || c == '.' || 'a' <= c <= 'z' || 'A' <= c <= 'Z' || '0' <= c <= '9'
  }

  /** The length of the longest prefix of file-name characters: how far the
      greedy group `([-_.\w]+)` reaches. */
  function LeadingNameChars(f: string): (n: nat)
    ensures n <= |f|
    ensures forall i :: 0 <= i < n ==> FileNameChar(f[i])
    ensures n == |f| || !FileNameChar(f[n])
    decreases |f|
  {
    if |f| > 0 && FileNameChar(f[0]) then 1 + LeadingNameChars(f[1..]) else 0
  }

  /** `is_valid_file_name` as written: `preg_match('/^([-_.\w]+)$/', f)`.
      Without the `D` modifier, PCRE's `$` also matches just before a final
      newline, so the group may stop one character short when that character
      is `\n`. */
  function IsValidFileNameAsWritten(f: string): bool
  {
    var n := LeadingNameChars(f);
    n >= 1 && (n == |f| || (n == |f| - 1 && f[n] == '\n'))
  }

  /** What the check is meant to accept: a non-empty name made only of `-`,
      `_`, `.`, letters and digits. */
  predicate IsValidFileName(f: string) {
    |f| > 0 && forall i :: 0 <= i < |f| ==> FileNameChar(f[i])
  }

  /** The written check accepts exactly the valid names and the valid names
      followed by one newline. */
  lemma IsValidFileNameAsWrittenIff(f: string)
    ensures IsValidFileNameAsWritten(f) <==>
            IsValidFileName(f) || (|f| >= 2 && f[|f| - 1] == '\n' && IsValidFileName(f[..|f| - 1]))
  {
    var n := LeadingNameChars(f);
    if IsValidFileName(f) {
      assert n == |f|;
    }
    if |f| >= 2 && f[|f| - 1] == '\n' && IsValidFileName(f[..|f| - 1]) {
      assert forall i :: 0 <= i < |f| - 1 ==> FileNameChar(f[i]) by {
        forall i | 0 <= i < |f| - 1 ensures FileNameChar(f[i]) {
          assert f[i] == f[..|f| - 1][i];
        }
      }
      assert n == |f| - 1;
    }
  }

  /** A name with a trailing newline slips through the written check. */
  lemma TrailingNewlineAccepted()
    ensures IsValidFileNameAsWritten("swagger.json\n")
    ensures !IsValidFileName("swagger.json\n")
  {
    var f := "swagger.json\n";
    assert !FileNameChar(f[12]);
    IsValidFileNameAsWrittenIff(f);
    assert f[..12] == "swagger.json";
  }

  /** The intended check rejects every path separator, space and control
      character. */
  lemma ValidFileNameHasNoSeparator(f: string)
    requires IsValidFileName(f)
    ensures '/' !in f && '\\' !in f && ' ' !in f && '\n' !in f && '\t' !in f
  {
  }

  /** The swagger-ui files that may be served. */
  const AllowedAssets: seq<string> := [
    "favicon-16x16.png",
    "favicon-32x32.png",
    "oauth2-redirect.html",
    "swagger-ui-bundle.js",
    "swagger-ui-bundle.js.map",
    "swagger-ui-standalone-preset.js",
    "swagger-ui-standalone-preset.js.map",
    "swagger-ui.css",
    "swagger-ui.css.map",
    "swagger-ui.js",
    "swagger-ui.js.map"
  ]

  /** Where `laravel_swagger_ui_dist_path` points: the dist directory, or one
      file inside it (`realpath` itself is file-system I/O). */
  datatype DistPath = DistDirectory | DistFile(asset: string)

  /** `laravel_swagger_ui_dist_path($asset)`. A missing or falsy asset names the
      directory with no allow-list check; any other asset must be allowed. */
  function SwaggerUiDistPath(asset: Option<string>): (r: Result<DistPath, Exception>)
    ensures (asset.None? || Falsy(asset.value)) ==> r == Success(DistDirectory)
    ensures asset.Some? && !Falsy(asset.value) ==>
              (r.Success? <==> asset.value in AllowedAssets)
    ensures r.Success? && r.value.DistFile? ==>
              asset == Some(r.value.asset) && r.value.asset in AllowedAssets
  {
    match asset
    case None => Success(DistDirectory)
    case Some(a) =>
      if Falsy(a) then Success(DistDirectory)
      else if a in AllowedAssets then Success(DistFile(a))
      else Failure(RuntimeException("(" + a + ") - this asset is not allowed"))
  }
}
