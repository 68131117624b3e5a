/** The request validators and sanitisers of app/utils/validators.py. */
module Validators {
  import opened Outcomes
  import opened Text
  import opened Paths
  import opened FileHelpers

  // ---- Errors ----

  /** A request parameter as `validate_boolean_parameter` may receive it: a bool, a str, or any other object, by its `str()`. */
  datatype Param = BoolParam(b: bool) | TextParam(s: string) | OtherParam(text: string)

  /** A value in an error's `details` dictionary. */
  datatype Detail = IntDetail(i: int) | TextDetail(s: string) | TextsDetail(items: seq<string>) | ParamDetail(p: Param)

  /** `ValidationError`: the message, the machine-readable code and the details dictionary. */
  datatype ValidationError = ValidationError(message: string, errorCode: string, details: map<string, Detail>)

  const DefaultErrorCode: string := "VALIDATION_ERROR"
  const EmptyTitle: string := "EMPTY_TITLE"
  const InvalidTitle: string := "INVALID_TITLE"
  const InvalidPageFormat: string := "INVALID_PAGE_FORMAT"
  const InvalidBoolean: string := "INVALID_BOOLEAN"
  const EmptyContent: string := "EMPTY_CONTENT"
  const ContentTooLarge: string := "CONTENT_TOO_LARGE"

  /** `ValidationError(message, error_code, details)` with the constructor's defaults; `details or {}` turns an absent dictionary into an empty one. */
  function NewValidationError(message: string, errorCode: string := DefaultErrorCode,
                              details: Option<map<string, Detail>> := None): (e: ValidationError)
    ensures e.message == message && e.errorCode == errorCode
    ensures details.None? ==> e.details == map[]
    ensures details.Some? ==> e.details == details.value
  {
    ValidationError(message, errorCode, if details.Some? then details.value else map[])
  }

  // ---- validate_title ----

  /** The characters `validate_title` removes: < > : " / \ | ? * */
  predicate IsTitleForbidden(c: char) {
    c == '<' || c == '>' || c == ':' || c == '"' || c == '/' || c == '\\' || c == '|' || c == '?' || c == '*'
  }

  /** `re.sub(r'[<>:"/\\|?*]', '', s)`. */
  function RemoveForbidden(s: string): (r: string)
    ensures |r| <= |s|
    ensures forall i :: 0 <= i < |r| ==> !IsTitleForbidden(r[i])
    ensures forall c :: c in r <==> c in s && !IsTitleForbidden(c)
  {
    if s == [] then []
    else
      var rest := RemoveForbidden(s[1..]);
      assert forall c :: c in s <==> c == s[0] || c in s[1..];
      if IsTitleForbidden(s[0]) then rest else [s[0]] + rest
  }

  /** The removal works character by character: removing from a concatenation removes from each part. */
  lemma {:induction false} RemoveForbiddenAppend(a: string, b: string)
    ensures RemoveForbidden(a + b) == RemoveForbidden(a) + RemoveForbidden(b)
  {
    if a != [] {
      assert (a + b)[0] == a[0] && (a + b)[1..] == a[1..] + b;
      RemoveForbiddenAppend(a[1..], b);
    } else {
      assert a + b == b;
    }
  }

  /** A single character is dropped exactly when it is forbidden. */
  lemma RemoveForbiddenOne(c: char)
    ensures RemoveForbidden([c]) == if IsTitleForbidden(c) then [] else [c]
  {
    assert [c][1..] == [];
  }

  /** A text without forbidden characters passes through the removal unchanged. */
  lemma {:induction false} RemoveForbiddenOfClean(s: string)
    requires forall i :: 0 <= i < |s| ==> !IsTitleForbidden(s[i])
    ensures RemoveForbidden(s) == s
  {
    if s != [] {
      RemoveForbiddenOfClean(s[1..]);
      assert [s[0]] + s[1..] == s;
    }
  }

  const MaxTitleLength: int := 200

  /** The title after stripping and removing the forbidden characters, before the length limit. */
  function CleanTitle(title: string): (r: string)
    ensures |r| <= |title|
    ensures forall c :: c in r ==> c in title && !IsTitleForbidden(c)
    ensures forall c :: c in title && !IsSpace(c) && !IsTitleForbidden(c) ==> c in r
  {
    StripChars(title);
    StripKeepsInner(title);
    RemoveForbidden(Strip(title))
  }

  /**
    `validate_title`: fails with EMPTY_TITLE on an all-whitespace title;
    otherwise strips it, removes the forbidden characters, cuts it to 200
    characters (stripping again after a cut) and fails with INVALID_TITLE
    if nothing is left.
  */
  function ValidateTitle(title: string): (r: Result<string, ValidationError>)
    ensures (r.Err? && r.error.errorCode == EmptyTitle) <==> AllSpace(title)
    ensures (r.Err? && r.error.errorCode == InvalidTitle) <==>
      && !AllSpace(title)
      && var c := CleanTitle(title); c == [] || (|c| > MaxTitleLength && AllSpace(c[..MaxTitleLength]))
    ensures r.Err? ==> r.error.errorCode == EmptyTitle || r.error.errorCode == InvalidTitle
    ensures r.Ok? ==> 1 <= |r.value| <= MaxTitleLength
    ensures r.Ok? ==> forall i :: 0 <= i < |r.value| ==> !IsTitleForbidden(r.value[i])
    ensures r.Ok? ==> forall c :: c in r.value ==> c in title
    ensures r.Ok? && |CleanTitle(title)| <= MaxTitleLength ==> r.value == CleanTitle(title)
    ensures r.Ok? && |CleanTitle(title)| > MaxTitleLength ==> r.value == Strip(CleanTitle(title)[..MaxTitleLength])
  {
    StripEmptyIff(title);
    if title == "" || Strip(title) == "" then
      Err(NewValidationError("Title cannot be empty", EmptyTitle))
    else
      var cleaned := CleanTitle(title);
      var limited := if |cleaned| > MaxTitleLength then Strip(cleaned[..MaxTitleLength]) else cleaned;
      StripEmptyIff(cleaned[..if |cleaned| > MaxTitleLength then MaxTitleLength else |cleaned|]);
      StripChars(cleaned[..if |cleaned| > MaxTitleLength then MaxTitleLength else |cleaned|]);
      assert forall c :: c in cleaned[..if |cleaned| > MaxTitleLength then MaxTitleLength else |cleaned|] ==> c in cleaned;
      if limited == "" then
        Err(NewValidationError("Title contains only invalid characters", InvalidTitle))
      else
        Ok(limited)
  }

  /** A title that is already clean (stripped, no forbidden character, 1 to 200 characters) is returned as it is. */
  lemma ValidateTitleOfCleanTitle(title: string)
    requires 1 <= |title| <= MaxTitleLength
    requires !IsSpace(title[0]) && !IsSpace(title[|title| - 1])
    requires forall i :: 0 <= i < |title| ==> !IsTitleForbidden(title[i])
    ensures ValidateTitle(title) == Ok(title)
  {
    StripOfStripped(title);
    RemoveForbiddenOfClean(title);
    StripEmptyIff(title);
  }

  // ---- validate_page_format ----

  const SupportedPageFormats: seq<string> := ["A4", "Letter", "Legal", "A3", "A5"]

  /** `validate_page_format`: returns the format unchanged when it is one of the five supported ones. */
  function ValidatePageFormat(pageFormat: string): (r: Result<string, ValidationError>)
    ensures r.Ok? <==> pageFormat in SupportedPageFormats
    ensures r.Ok? ==> r.value == pageFormat
    ensures r.Err? ==> r.error.errorCode == InvalidPageFormat
    ensures r.Err? ==> r.error.message == "Unsupported page format: " + pageFormat
    ensures r.Err? ==> r.error.details == map["provided_format" := TextDetail(pageFormat),
                                              "supported_formats" := TextsDetail(SupportedPageFormats)]
  {
    if pageFormat !in SupportedPageFormats then
      Err(NewValidationError("Unsupported page format: " + pageFormat, InvalidPageFormat,
                             Some(map["provided_format" := TextDetail(pageFormat),
                                      "supported_formats" := TextsDetail(SupportedPageFormats)])))
    else
      Ok(pageFormat)
  }

  /** The comparison is exact: "A4" passes, its lower-case spelling does not. */
  lemma PageFormatIsCaseSensitive()
    ensures ValidatePageFormat("A4") == Ok("A4")
    ensures ValidatePageFormat("a4").Err?
  {
    assert "a4" != "A4" && "a4" != "Letter" && "a4" != "Legal" && "a4" != "A3" && "a4" != "A5";
  }

  // ---- validate_boolean_parameter ----

  const TrueWords: seq<string> := ["true", "1", "yes", "on"]
  const FalseWords: seq<string> := ["false", "0", "no", "off"]

  /** `str(value)`, as the error message shows the value. */
  function ParamText(value: Param): string {
    match value
    case BoolParam(b) => if b then "True" else "False"
    case TextParam(s) => s
    case OtherParam(t) => t
  }

  /**
    `validate_boolean_parameter`: a bool is returned as it is; a string is
    matched case-insensitively against the true and false words; anything
    else fails with INVALID_BOOLEAN.
  */
  function ValidateBooleanParameter(value: Param, paramName: string): (r: Result<bool, ValidationError>)
    ensures value.BoolParam? ==> r == Ok(value.b)
    ensures r == Ok(true) <==> value == BoolParam(true) || (value.TextParam? && Lower(value.s) in TrueWords)
    ensures r == Ok(false) <==> value == BoolParam(false) || (value.TextParam? && Lower(value.s) in FalseWords)
    ensures r.Err? ==> r.error.errorCode == InvalidBoolean
    ensures r.Err? ==> r.error.details == map["parameter" := TextDetail(paramName), "value" := ParamDetail(value)]
  {
    if value.BoolParam? then Ok(value.b)
    else if value.TextParam? && Lower(value.s) in TrueWords then Ok(true)
    else if value.TextParam? && Lower(value.s) in FalseWords then Ok(false)
    else
      Err(NewValidationError("Invalid boolean value for " + paramName + ": " + ParamText(value), InvalidBoolean,
                             Some(map["parameter" := TextDetail(paramName), "value" := ParamDetail(value)])))
  }

  /** Python's own spelling of a bool, `str(b)`, reads back as that bool. */
  lemma BooleanTextRoundTrip(b: bool, paramName: string)
    ensures ValidateBooleanParameter(TextParam(ParamText(BoolParam(b))), paramName) == Ok(b)
  {
    if b {
      assert Lower("True") == "true";
    } else {
      assert Lower("False") == "false";
    }
  }

  /** Case does not matter: a string and its lower-case form are accepted alike and give the same bool. */
  lemma BooleanIgnoresCase(s: string, paramName: string)
    ensures ValidateBooleanParameter(TextParam(s), paramName).Ok? <==> ValidateBooleanParameter(TextParam(Lower(s)), paramName).Ok?
    ensures ValidateBooleanParameter(TextParam(s), paramName).Ok? ==>
      ValidateBooleanParameter(TextParam(s), paramName) == ValidateBooleanParameter(TextParam(Lower(s)), paramName)
  {
    LowerIdempotent(s);
  }

  // ---- validate_markdown_content ----

  /** The 10 MiB character limit on markdown text. */
  const MaxMarkdownLength: int := 10 * 1024 * 1024

  /**
    `validate_markdown_content`: EMPTY_CONTENT for all-whitespace text, checked
    first; then CONTENT_TOO_LARGE beyond 10 MiB characters.
  */
  function ValidateMarkdownContent(content: string): (r: Outcome<ValidationError>)
    ensures (r.Fail? && r.error.errorCode == EmptyContent) <==> AllSpace(content)
    ensures (r.Fail? && r.error.errorCode == ContentTooLarge) <==> !AllSpace(content) && |content| > MaxMarkdownLength
    ensures r.Pass? <==> !AllSpace(content) && |content| <= MaxMarkdownLength
    ensures r.Fail? && r.error.errorCode == ContentTooLarge ==> r.error.details == map["content_size" := IntDetail(|content|)]
  {
    StripEmptyIff(content);
    if content == "" || Strip(content) == "" then
      Fail(NewValidationError("Markdown content cannot be empty", EmptyContent))
    else if |content| > MaxMarkdownLength then
      Fail(NewValidationError("Markdown content too large", ContentTooLarge,
                              Some(map["content_size" := IntDetail(|content|)])))
    else
      Pass
  }

  // ---- validate_image_references ----

  /** The first index at or after `from` holding `c`, or -1 (what `[^c]*c` stops at). */
  function IndexOfFrom(s: string, c: char, from: nat): (r: int)
    requires from <= |s|
    ensures r == -1 || (from <= r < |s| && s[r] == c)
    ensures forall k :: from <= k < (if r == -1 then |s| else r) ==> s[k] != c
    decreases |s| - from
  {
    if from == |s| then -1
    else if s[from] == c then from
    else IndexOfFrom(s, c, from + 1)
  }

  /** `t` is the text `![alt](path)` that `!\[([^\]]*)\]\(([^)]+)\)` matches. */
  predicate IsImageLink(t: string, alt: string, path: string) {
    && t == "![" + alt + "](" + path + ")"
    && ']' !in alt
    && path != "" && ')' !in path
  }

  /** The match of `!\[([^\]]*)\]\(([^)]+)\)` starting at position `i`, if any: the index just past it and its path group. */
  function ImageLinkAt(s: string, i: nat): (m: Option<(nat, string)>)
    requires i <= |s|
    ensures m.Some? ==> var (end, path) := m.value;
      && i + 5 + |path| <= end <= |s|
      && IsImageLink(s[i..end], s[i + 2..end - |path| - 3], path)
  {
    if i + 2 <= |s| && s[i] == '!' && s[i + 1] == '[' then
      var close := IndexOfFrom(s, ']', i + 2);
      if close < 0 || close + 1 >= |s| || s[close + 1] != '(' then None
      else
        var paren := IndexOfFrom(s, ')', close + 2);
        if paren <= close + 2 then None
        else
          LinkPieces(s, i, close, paren);
          Some((paren + 1, s[close + 2..paren]))
    else None
  }

  /** A stretch of `s` that holds no `c` is a text without `c`. */
  lemma NoCharIn(s: string, lo: nat, hi: nat, c: char)
    requires lo <= hi <= |s|
    requires forall k :: lo <= k < hi ==> s[k] != c
    ensures c !in s[lo..hi]
  {
    assert forall k :: 0 <= k < hi - lo ==> s[lo..hi][k] == s[lo + k];
  }

  /** The delimiters the scanner found around an alt text and a path make up an image link. */
  lemma LinkPieces(s: string, i: nat, close: nat, paren: nat)
    requires i + 2 <= close && close + 2 < paren < |s|
    requires s[i] == '!' && s[i + 1] == '[' && s[close] == ']' && s[close + 1] == '(' && s[paren] == ')'
    requires forall k :: i + 2 <= k < close ==> s[k] != ']'
    requires forall k :: close + 2 <= k < paren ==> s[k] != ')'
    ensures IsImageLink(s[i..paren + 1], s[i + 2..close], s[close + 2..paren])
  {
    NoCharIn(s, i + 2, close, ']');
    NoCharIn(s, close + 2, paren, ')');
    LinkConcat(s, i, close, paren);
  }

  /** The text from `i` to `paren` is its five pieces, joined. */
  lemma LinkConcat(s: string, i: nat, close: nat, paren: nat)
    requires i + 2 <= close && close + 2 < paren < |s|
    requires s[i] == '!' && s[i + 1] == '[' && s[close] == ']' && s[close + 1] == '(' && s[paren] == ')'
    ensures s[i..paren + 1] == "![" + s[i + 2..close] + "](" + s[close + 2..paren] + ")"
  {
    assert s[i..i + 2] == "![" && s[close..close + 2] == "](" && s[paren..paren + 1] == ")";
    assert s[i..paren + 1] == s[i..i + 2] + s[i + 2..close] + s[close..close + 2] + s[close + 2..paren] + s[paren..paren + 1];
  }

  /** The characters of an `![alt](path)` text, position by position. */
  lemma ImageLinkChars(alt: string, path: string)
    ensures var t := "![" + alt + "](" + path + ")";
      && |t| == |alt| + |path| + 5
      && t[0] == '!' && t[1] == '['
      && t[2..2 + |alt|] == alt
      && t[2 + |alt|] == ']' && t[3 + |alt|] == '('
      && t[4 + |alt|..4 + |alt| + |path|] == path
      && t[4 + |alt| + |path|] == ')'
  {
    var t := "![" + alt + "](" + path + ")";
    assert t == "![" + (alt + ("](" + (path + ")")));
    assert t[2..] == alt + ("](" + (path + ")"));
    assert t[4 + |alt|..] == path + ")";
  }

  /** `IndexOfFrom` finds the first `c` at or after `from`. */
  lemma IndexOfFromFirst(s: string, c: char, from: nat, k: nat)
    requires from <= k < |s| && s[k] == c
    requires forall j :: from <= j < k ==> s[j] != c
    ensures IndexOfFrom(s, c, from) == k
  {
  }

  /** The pieces of an `![alt](path)` text starting at position `i` of `s`. */
  lemma ImageLinkCharsAt(s: string, i: nat, alt: string, path: string)
    requires i + |alt| + |path| + 5 <= |s|
    requires s[i..i + |alt| + |path| + 5] == "![" + alt + "](" + path + ")"
    ensures s[i] == '!' && s[i + 1] == '['
    ensures s[i + 2..i + 2 + |alt|] == alt
    ensures s[i + 2 + |alt|] == ']' && s[i + 3 + |alt|] == '('
    ensures s[i + 4 + |alt|..i + 4 + |alt| + |path|] == path
    ensures s[i + 4 + |alt| + |path|] == ')'
  {
    var n := |alt| + |path| + 5;
    var t := s[i..i + n];
    ImageLinkChars(alt, path);
    assert s[i] == t[0] && s[i + 1] == t[1];
    assert s[i + 2 + |alt|] == t[2 + |alt|] && s[i + 3 + |alt|] == t[3 + |alt|];
    assert s[i + 4 + |alt| + |path|] == t[4 + |alt| + |path|];
    SliceOfSlice(s, i, i + n, 2, 2 + |alt|);
    SliceOfSlice(s, i, i + n, 4 + |alt|, 4 + |alt| + |path|);
  }

  /** A slice of a slice is a slice. */
  lemma SliceOfSlice(s: string, i: nat, j: nat, a: nat, b: nat)
    requires i <= j <= |s| && a <= b <= j - i
    ensures s[i..j][a..b] == s[i + a..i + b]
  {
    assert forall k :: 0 <= k < b - a ==> s[i..j][a..b][k] == s[i + a + k];
  }

  /** A stretch of `s` equal to a text without `c` holds no `c`. */
  lemma NotInSlice(s: string, lo: nat, hi: nat, p: string, c: char)
    requires lo <= hi <= |s| && s[lo..hi] == p && c !in p
    ensures forall j :: lo <= j < hi ==> s[j] != c
  {
    assert forall j :: lo <= j < hi ==> s[j] == p[j - lo];
  }

  /** Wherever an `![alt](path)` text begins, the scanner matches exactly it. */
  lemma ImageLinkAtFinds(s: string, i: nat, alt: string, path: string)
    requires i + |alt| + |path| + 5 <= |s|
    requires IsImageLink(s[i..i + |alt| + |path| + 5], alt, path)
    ensures ImageLinkAt(s, i) == Some((i + |alt| + |path| + 5, path))
  {
    ImageLinkCharsAt(s, i, alt, path);
    var close := i + 2 + |alt|;
    var paren := close + 2 + |path|;
    NotInSlice(s, i + 2, close, alt, ']');
    IndexOfFromFirst(s, ']', i + 2, close);
    NotInSlice(s, close + 2, paren, path, ')');
    IndexOfFromFirst(s, ')', close + 2, paren);
    ImageLinkAtOf(s, i, close, paren);
  }

  /** Once the closing bracket and parenthesis are found, the scanner returns the path between them. */
  lemma ImageLinkAtOf(s: string, i: nat, close: nat, paren: nat)
    requires i + 2 <= |s| && s[i] == '!' && s[i + 1] == '['
    requires IndexOfFrom(s, ']', i + 2) == close && close + 1 < |s| && s[close + 1] == '('
    requires IndexOfFrom(s, ')', close + 2) == paren && paren > close + 2
    ensures ImageLinkAt(s, i) == Some((paren + 1, s[close + 2..paren]))
  {
  }

  /** `re.findall` of the image-link pattern from position `i` on, keeping each match's path group. */
  function ImageLinkPaths(s: string, i: nat): (paths: seq<string>)
    requires i <= |s|
    ensures forall k :: 0 <= k < |paths| ==> paths[k] != "" && ')' !in paths[k]
    decreases |s| - i
  {
    if i == |s| then []
    else
      match ImageLinkAt(s, i)
      case Some((end, path)) => [path] + ImageLinkPaths(s, end)
      case None => ImageLinkPaths(s, i + 1)
  }

  /** Every path found is the path group of an `![alt](path)` text that starts at or after `i`. */
  lemma {:induction false} ImageLinkPathsFromText(s: string, i: nat, p: string)
    requires i <= |s| && p in ImageLinkPaths(s, i)
    ensures exists j, end :: i <= j && j + 5 + |p| <= end <= |s| && IsImageLink(s[j..end], s[j + 2..end - |p| - 3], p)
    decreases |s| - i
  {
    if i == |s| {
      assert false;
    } else {
      match ImageLinkAt(s, i)
      case Some((end, path)) =>
        if p != path {
          ImageLinkPathsFromText(s, end, p);
        }
      case None =>
        ImageLinkPathsFromText(s, i + 1, p);
    }
  }

  /** A text that is one image link yields exactly that link's path. */
  lemma ImageLinkPathsOfLink(alt: string, path: string)
    requires ']' !in alt && path != "" && ')' !in path
    ensures ImageLinkPaths("![" + alt + "](" + path + ")", 0) == [path]
  {
    var s := "![" + alt + "](" + path + ")";
    assert s[0..|alt| + |path| + 5] == s;
    ImageLinkAtFinds(s, 0, alt, path);
  }

  /** Positions where no match begins are passed over: the scan from `i` finds what the scan from `j` finds. */
  lemma {:induction false} ImageLinkPathsSkip(s: string, i: nat, j: nat)
    requires i <= j <= |s|
    requires forall k :: i <= k < j ==> ImageLinkAt(s, k) == None
    ensures ImageLinkPaths(s, i) == ImageLinkPaths(s, j)
    decreases j - i
  {
    if i < j {
      ImageLinkPathsSkip(s, i + 1, j);
    }
  }

  /** No match begins at a position that does not hold '!'. */
  lemma ImageLinkPathsSkipPlain(s: string, i: nat, j: nat)
    requires i <= j <= |s|
    requires forall k :: i <= k < j ==> s[k] != '!'
    ensures ImageLinkPaths(s, i) == ImageLinkPaths(s, j)
  {
    ImageLinkPathsSkip(s, i, j);
  }

  /**
    Every link is found: when no match begins between `i` and `j` and an
    `![alt](path)` text spans `j` to `end`, the scan from `i` finds `path`
    first and goes on at `end`.
  */
  lemma ImageLinkPathsFinds(s: string, i: nat, j: nat, end: nat, alt: string, path: string)
    requires i <= j && end == j + |alt| + |path| + 5 <= |s|
    requires forall k :: i <= k < j ==> ImageLinkAt(s, k) == None
    requires IsImageLink(s[j..end], alt, path)
    ensures ImageLinkPaths(s, i) == [path] + ImageLinkPaths(s, end)
  {
    ImageLinkPathsSkip(s, i, j);
    ImageLinkPathsLinkAt(s, j, end, alt, path);
  }

  /** A link at the scan position contributes its path, and the scan goes on after it. */
  lemma ImageLinkPathsLinkAt(s: string, j: nat, end: nat, alt: string, path: string)
    requires end == j + |alt| + |path| + 5 <= |s|
    requires IsImageLink(s[j..end], alt, path)
    ensures ImageLinkPaths(s, j) == [path] + ImageLinkPaths(s, end)
  {
    ImageLinkAtFinds(s, j, alt, path);
    ImageLinkPathsAtMatch(s, j, end, path);
  }

  /** A match at the scan position contributes its path, and the scan goes on after it. */
  lemma ImageLinkPathsAtMatch(s: string, j: nat, end: nat, path: string)
    requires j < |s| && ImageLinkAt(s, j) == Some((end, path))
    ensures ImageLinkPaths(s, j) == [path] + ImageLinkPaths(s, end)
  {
  }

  /** A text that is a link, a stretch without '!', and a link yields exactly the two paths. */
  lemma ImageLinkPathsLinksAround(s: string, a: nat, b: nat, alt1: string, path1: string, alt2: string, path2: string)
    requires a == |alt1| + |path1| + 5 && a <= b && b + |alt2| + |path2| + 5 == |s|
    requires IsImageLink(s[0..a], alt1, path1)
    requires forall k :: a <= k < b ==> s[k] != '!'
    requires IsImageLink(s[b..|s|], alt2, path2)
    ensures ImageLinkPaths(s, 0) == [path1, path2]
  {
    ImageLinkPathsLinkAt(s, 0, a, alt1, path1);
    ImageLinkPathsSkipPlain(s, a, b);
    ImageLinkPathsLinkAt(s, b, |s|, alt2, path2);
    assert ImageLinkPaths(s, |s|) == [];
  }

  /** The three parts of a concatenation are its slices. */
  lemma ThreeParts(x: string, y: string, z: string)
    ensures var s := x + y + z;
      s[0..|x|] == x && s[|x|..|x| + |y|] == y && s[|x| + |y|..|s|] == z
  {
  }

  /** Two links with text free of '!' between them are both found, in order, and nothing else is. */
  lemma ImageLinkPathsTwo(alt1: string, path1: string, gap: string, alt2: string, path2: string)
    requires ']' !in alt1 && path1 != "" && ')' !in path1
    requires ']' !in alt2 && path2 != "" && ')' !in path2
    requires '!' !in gap
    ensures ImageLinkPaths(("![" + alt1 + "](" + path1 + ")") + gap + ("![" + alt2 + "](" + path2 + ")"), 0) == [path1, path2]
  {
    var first, second := "![" + alt1 + "](" + path1 + ")", "![" + alt2 + "](" + path2 + ")";
    var s := first + gap + second;
    var a, b := |first|, |first| + |gap|;
    ThreeParts(first, gap, second);
    assert IsImageLink(s[0..a], alt1, path1);
    assert IsImageLink(s[b..|s|], alt2, path2);
    NotInSlice(s, a, b, gap, '!');
    ImageLinkPathsLinksAround(s, a, b, alt1, path1, alt2, path2);
  }

  /** Two links separated by a space are both found, in order. */
  lemma ImageLinkPathsTwoLinks(s: string)
    requires s == "![a](x.png) ![b](y.png)"
    ensures ImageLinkPaths(s, 0) == ["x.png", "y.png"]
  {
    assert s == ("![" + "a" + "](" + "x.png" + ")") + " " + ("![" + "b" + "](" + "y.png" + ")");
    ImageLinkPathsTwo("a", "x.png", " ", "b", "y.png");
  }

  /** `path.lstrip('./')`: drops every leading '.' and '/'. */
  function StripDotSlash(p: string): (r: string)
    ensures r == "" || (r[0] != '.' && r[0] != '/')
  {
    if p != [] && (p[0] == '.' || p[0] == '/') then StripDotSlash(p[1..]) else p
  }

  /** The normal form is a suffix of the path, starts with neither '.' nor '/', and only those were dropped. */
  lemma {:induction false} StripDotSlashShape(p: string)
    ensures var r := StripDotSlash(p);
      |r| <= |p| && r == p[|p| - |r|..] &&
      (r == "" || (r[0] != '.' && r[0] != '/')) &&
      forall k :: 0 <= k < |p| - |r| ==> p[k] == '.' || p[k] == '/'
  {
    if p != [] && (p[0] == '.' || p[0] == '/') {
      var q := p[1..];
      StripDotSlashShape(q);
      var r := StripDotSlash(q);
      assert StripDotSlash(p) == r;
      assert q[|q| - |r|..] == p[|p| - |r|..];
      forall k | 0 <= k < |p| - |r|
        ensures p[k] == '.' || p[k] == '/'
      {
        if k > 0 {
          assert p[k] == q[k - 1];
        }
      }
    }
  }

  /** The set of normal forms of the given raw paths (the `referenced_images` set). */
  function NormalisedPaths(raws: seq<string>): (paths: set<string>)
    ensures forall k :: 0 <= k < |raws| ==> StripDotSlash(raws[k]) in paths
  {
    if raws == [] then {} else NormalisedPaths(raws[..|raws| - 1]) + {StripDotSlash(raws[|raws| - 1])}
  }

  /** A path is in the set exactly when one of the raw paths normalises to it. */
  lemma {:induction false} NormalisedPathsMembership(raws: seq<string>, x: string)
    ensures x in NormalisedPaths(raws) <==> exists k :: 0 <= k < |raws| && StripDotSlash(raws[k]) == x
  {
    if raws != [] {
      var init := raws[..|raws| - 1];
      NormalisedPathsMembership(init, x);
      if x in NormalisedPaths(raws) {
        if x in NormalisedPaths(init) {
          var k :| 0 <= k < |init| && StripDotSlash(init[k]) == x;
          assert raws[k] == init[k];
        } else {
          assert StripDotSlash(raws[|raws| - 1]) == x;
        }
      }
      if exists k :: 0 <= k < |raws| && StripDotSlash(raws[k]) == x {
        var k :| 0 <= k < |raws| && StripDotSlash(raws[k]) == x;
        if k < |init| {
          assert init[k] == raws[k];
        }
      }
    }
  }

  /** Normalising a concatenation normalises each part. */
  lemma {:induction false} NormalisedPathsAppend(a: seq<string>, b: seq<string>)
    ensures NormalisedPaths(a + b) == NormalisedPaths(a) + NormalisedPaths(b)
  {
    if b == [] {
      assert a + b == a;
    } else {
      var init := b[..|b| - 1];
      NormalisedPathsAppend(a, init);
      assert (a + b)[..|a + b| - 1] == a + init;
    }
  }

  /** All the matches, pattern after pattern. */
  function Flatten(groups: seq<seq<string>>): (r: seq<string>)
  {
    if groups == [] then [] else Flatten(groups[..|groups| - 1]) + groups[|groups| - 1]
  }

  /** One more group adds its matches at the end. */
  lemma FlattenStep(groups: seq<seq<string>>, p: nat)
    requires p < |groups|
    ensures Flatten(groups[..p + 1]) == Flatten(groups[..p]) + groups[p]
  {
    assert groups[..p + 1][..p] == groups[..p];
  }

  /** Two groups flatten to the first's matches followed by the second's. */
  lemma FlattenPair(groups: seq<seq<string>>)
    requires |groups| == 2
    ensures Flatten(groups) == groups[0] + groups[1]
  {
    assert groups[..1] == [groups[0]];
    assert [groups[0]][..0] == [];
    assert Flatten([groups[0]]) == [] + groups[0];
  }

  /** The normalised paths of all image references: those the link scanner finds, then the given `<img src>` values. */
  function ReferencedImages(markdown: string, tagPaths: seq<string>): set<string> {
    NormalisedPaths(RawReferences(markdown, tagPaths))
  }

  /** The raw reference paths: those the link scanner finds, then the given `<img src>` values. */
  function RawReferences(markdown: string, tagPaths: seq<string>): seq<string> {
    ImageLinkPaths(markdown, 0) + tagPaths
  }

  /**
    `validate_image_references`: gathers the normalised reference paths of
    both patterns into a set and returns, in no particular order and without
    repetition, those that are not among the available images. The matches
    of the `<img src=...>` pattern are given as `tagPaths`.
  */
  method ValidateImageReferences(markdown: string, tagPaths: seq<string>, availableImages: seq<string>)
    returns (missing: seq<string>)
    ensures forall k, l :: 0 <= k < l < |missing| ==> missing[k] != missing[l]
    ensures (set x | x in missing) == ReferencedImages(markdown, tagPaths) - (set a | a in availableImages)
  {
    var patterns := [ImageLinkPaths(markdown, 0), tagPaths];
    var referenced: set<string> := {};
    for p := 0 to |patterns|
      invariant referenced == NormalisedPaths(Flatten(patterns[..p]))
    {
      var matches := patterns[p];
      referenced := AddNormalised(referenced, matches);
      FlattenStep(patterns, p);
      NormalisedPathsAppend(Flatten(patterns[..p]), matches);
    }
    assert patterns[..|patterns|] == patterns;
    FlattenPair(patterns);
    missing := ListOfSet(referenced - set a | a in availableImages);
  }

  /** The inner loop: adds the normal form of each match of one pattern to the set. */
  method AddNormalised(referenced: set<string>, matches: seq<string>) returns (r: set<string>)
    ensures r == referenced + NormalisedPaths(matches)
  {
    r := referenced;
    for m := 0 to |matches|
      invariant r == referenced + NormalisedPaths(matches[..m])
    {
      assert matches[..m + 1][..m] == matches[..m];
      r := r + {StripDotSlash(matches[m])};
    }
    assert matches[..|matches|] == matches;
  }

  /** `list(s)` for a set: every element once, in some order. */
  method ListOfSet(s: set<string>) returns (items: seq<string>)
    ensures forall k, l :: 0 <= k < l < |items| ==> items[k] != items[l]
    ensures (set x | x in items) == s
  {
    items := [];
    var rest := s;
    while rest != {}
      invariant (set x | x in items) + rest == s
      invariant forall x :: x in items ==> x !in rest
      invariant forall k, l :: 0 <= k < l < |items| ==> items[k] != items[l]
      decreases |rest|
    {
      var x :| x in rest;
      items := items + [x];
      rest := rest - {x};
    }
  }

  /**
    A path is reported missing exactly when some reference normalises to it
    and no available image has that path.
  */
  lemma MissingImageMembership(markdown: string, tagPaths: seq<string>, availableImages: seq<string>, x: string)
    ensures x in ReferencedImages(markdown, tagPaths) - (set a | a in availableImages) <==>
      x !in availableImages && exists k :: 0 <= k < |RawReferences(markdown, tagPaths)| && StripDotSlash(RawReferences(markdown, tagPaths)[k]) == x
  {
    NormalisedPathsMembership(RawReferences(markdown, tagPaths), x);
  }

  /** No referenced path starts with '.' or '/'. */
  lemma ReferencedImagesNormal(markdown: string, tagPaths: seq<string>, x: string)
    requires x in ReferencedImages(markdown, tagPaths)
    ensures x == "" || (x[0] != '.' && x[0] != '/')
  {
    var raws := RawReferences(markdown, tagPaths);
    NormalisedPathsMembership(raws, x);
    var k :| 0 <= k < |raws| && StripDotSlash(raws[k]) == x;
    StripDotSlashShape(raws[k]);
  }

  // ---- create_error_response ----

  /** The inner dictionary of an error response. */
  datatype ErrorBody = ErrorBody(code: string, message: string, details: map<string, Detail>,
                                 timestamp: Option<string>, requestId: Option<string>)

  /** `{"error": {...}}`. */
  datatype ErrorResponse = ErrorResponse(error: ErrorBody)

  /** The error an error response was built from. */
  function ErrorOfResponse(r: ErrorResponse): ValidationError {
    ValidationError(r.error.message, r.error.code, r.error.details)
  }

  /** `create_error_response`: carries the error's code, message and details and the request id, with no timestamp yet. */
  function CreateErrorResponse(error: ValidationError, requestId: Option<string> := None): (r: ErrorResponse)
    ensures ErrorOfResponse(r) == error
    ensures r.error.requestId == requestId && r.error.timestamp == None
  {
    ErrorResponse(ErrorBody(error.errorCode, error.message, error.details, None, requestId))
  }

  // ---- sanitize_filename ----

  /** The longest download name `sanitize_filename` aims for. */
  const MaxDownloadNameLength: int := 100

  /**
    The first steps of `sanitize_filename`: replace unsafe characters, put
    `file_` in front of a name starting with '.' or '-', and use
    `document.pdf` for an empty name.
  */
  function SanitizedName(filename: string): (r: string)
    ensures r != "" && AllSafe(r) && r[0] != '.' && r[0] != '-'
    ensures filename == "" ==> r == "document.pdf"
    ensures filename != "" && filename[0] != '.' && filename[0] != '-' ==> r == ReplaceUnsafe(filename)
    ensures filename != "" && (filename[0] == '.' || filename[0] == '-') ==> r == "file_" + ReplaceUnsafe(filename)
  {
    var mapped := ReplaceUnsafe(filename);
    ReplaceUnsafeSafe(filename);
    var prefixed := WithFilePrefix(mapped);
    assert AllSafe("file_");
    AllSafeConcat("file_", mapped);
    if prefixed == "" then "document.pdf" else prefixed
  }

  /** The prefix step of `sanitize_filename`: `file_` in front of a name starting with '.' or '-'. */
  function WithFilePrefix(m: string): (r: string)
    ensures r == "" <==> m == ""
    ensures r != "" ==> r[0] != '.' && r[0] != '-'
    ensures (StartsWith(m, ".") || StartsWith(m, "-")) ==> r == "file_" + m
    ensures !StartsWith(m, ".") && !StartsWith(m, "-") ==> r == m
  {
    if StartsWith(m, ".") || StartsWith(m, "-") then "file_" + m else m
  }

  /** The prefix step keeps whether there is a dot, and the text after the last one. */
  lemma WithFilePrefixDots(m: string)
    ensures '.' in WithFilePrefix(m) <==> '.' in m
    ensures AfterLastDot(WithFilePrefix(m)) == AfterLastDot(m)
  {
    var r := WithFilePrefix(m);
    InIffLastIndexOf(m, '.');
    InIffLastIndexOf(r, '.');
    if r != m {
      LastIndexOfAfterPrefix("file_", m, '.');
      if '.' in m {
        AfterLastDotFilePrefix(m);
      }
    }
  }

  /** The length step of `sanitize_filename`: `name[:100-len(ext)-1]` plus the extension after the last dot. */
  function LimitDownloadName(named: string): (r: string)
    ensures |r| <= |named|
    ensures |named| <= MaxDownloadNameLength ==> r == named
    ensures |named| > MaxDownloadNameLength && named[0] != '.' ==> |r| < |named|
  {
    if |named| <= MaxDownloadNameLength then named
    else if '.' in named then
      var d := LastIndexOf(named, '.');
      var ext := named[d + 1..];
      SliceTo(named[..d], MaxDownloadNameLength - |ext| - 1) + (if ext != "" then "." + ext else "")
    else SliceTo(named, MaxDownloadNameLength - 1)
  }

  /** `sanitize_filename`. */
  function SanitizeFilename(filename: string): (r: string)
    ensures r != "" && AllSafe(r)
    ensures |SanitizedName(filename)| <= MaxDownloadNameLength ==> r == SanitizedName(filename) && r[0] != '.' && r[0] != '-'
  {
    var named := SanitizedName(filename);
    var r := LimitDownloadName(named);
    assert r != "" && AllSafe(r) by {
      if |named| > MaxDownloadNameLength {
        LimitKeepsSafe(named);
      }
    }
    r
  }

  /** The length step keeps a long safe name safe and non-empty. */
  lemma LimitKeepsSafe(named: string)
    requires AllSafe(named) && named != "" && named[0] != '.' && |named| > MaxDownloadNameLength
    ensures var r := LimitDownloadName(named); r != "" && AllSafe(r)
  {
    var d := LastIndexOf(named, '.');
    if '.' in named {
      var name, ext := named[..d], named[d + 1..];
      assert AllSafe(name) && AllSafe(ext);
      var kept := SliceTo(name, MaxDownloadNameLength - |ext| - 1);
      assert AllSafe(kept);
      if ext != "" {
        AllSafeConcat(".", ext);
        AllSafeConcat(kept, "." + ext);
      }
    } else {
      assert |SliceTo(named, MaxDownloadNameLength - 1)| == MaxDownloadNameLength - 1;
    }
  }

  /**
    With an extension of at most 98 characters the length step keeps the
    first character, keeps the last dot and everything after it, cuts only
    the stem, and ends at no more than 100 characters.
  */
  lemma LimitDownloadNameShape(named: string)
    requires named != "" && |AfterLastDot(named)| <= MaxDownloadNameLength - 2
    ensures var r := LimitDownloadName(named); var e := AfterLastDot(named);
      |r| <= MaxDownloadNameLength && r != "" && r[0] == named[0] &&
      ('.' in named && e != "" ==> |r| > |e| && r == named[..|r| - |e| - 1] + "." + e && r[|r| - |e| - 1..] == "." + e) &&
      ('.' !in named || e == "" ==> r == named[..|r|])
  {
    if |named| <= MaxDownloadNameLength {
      ShortNameShape(named);
    } else if '.' in named {
      LongDottedShape(named);
    } else {
      assert LimitDownloadName(named) == named[..MaxDownloadNameLength - 1];
    }
  }

  /** A name the length step leaves alone already has the shape: stem, last dot, extension. */
  lemma ShortNameShape(named: string)
    requires named != ""
    ensures var e := AfterLastDot(named);
      ('.' in named && e != "" ==> |named| > |e| && named == named[..|named| - |e| - 1] + "." + e && named[|named| - |e| - 1..] == "." + e) &&
      named == named[..|named|]
  {
    if '.' in named {
      DotSplit(named);
    }
  }

  /** The length step on a long name with a dot, in the shape of `LimitDownloadNameShape`. */
  lemma LongDottedShape(named: string)
    requires '.' in named && |named| > MaxDownloadNameLength && |AfterLastDot(named)| <= MaxDownloadNameLength - 2
    ensures var r := LimitDownloadName(named); var e := AfterLastDot(named);
      |r| <= MaxDownloadNameLength && r != "" && r[0] == named[0] &&
      (e != "" ==> |r| > |e| && r == named[..|r| - |e| - 1] + "." + e && r[|r| - |e| - 1..] == "." + e) &&
      (e == "" ==> r == named[..|r|])
  {
    var r := LimitDownloadName(named);
    var e := AfterLastDot(named);
    var stem := named[..MaxDownloadNameLength - 1 - |e|];
    LimitLongDotted(named);
    if e != "" {
      assert r == stem + "." + e;
      StemDotShape(named, stem, e);
    } else {
      assert r == stem;
    }
  }

  /** `stem + "." + e` for a non-empty prefix `stem` of `named`: its pieces by position. */
  lemma StemDotShape(named: string, stem: string, e: string)
    requires stem != "" && |stem| <= |named| && stem == named[..|stem|]
    ensures var r := stem + "." + e;
      |r| == |stem| + |e| + 1 && r[0] == named[0] && r == named[..|r| - |e| - 1] + "." + e && r[|r| - |e| - 1..] == "." + e
  {
    DotTail(stem, e);
  }

  /** A long name with a dot keeps the first `99 - |ext|` characters of its stem, then the dot and the extension if there is one. */
  lemma LimitLongDotted(named: string)
    requires '.' in named && |named| > MaxDownloadNameLength && |AfterLastDot(named)| <= MaxDownloadNameLength - 2
    ensures var e := AfterLastDot(named);
      LimitDownloadName(named) == named[..MaxDownloadNameLength - 1 - |e|] + (if e != "" then "." + e else "")
  {
    DotSplit(named);
    var d := LastIndexOf(named, '.');
    var e := named[d + 1..];
    assert SliceTo(named[..d], MaxDownloadNameLength - |e| - 1) == named[..d][..MaxDownloadNameLength - 1 - |e|];
    assert named[..d][..MaxDownloadNameLength - 1 - |e|] == named[..MaxDownloadNameLength - 1 - |e|];
  }

  /** The pieces of `stem + "." + e`, by position. */
  lemma DotTail(stem: string, e: string)
    ensures var r := stem + "." + e;
      |r| == |stem| + |e| + 1 && r[..|stem|] == stem && r[|stem|..] == "." + e
  {
    var r := stem + "." + e;
    assert r == stem + ("." + e);
  }

  /** Long names without a dot are cut to their first 99 characters. */
  lemma LimitDownloadNameNoDot(named: string)
    requires '.' !in named && |named| > MaxDownloadNameLength
    ensures LimitDownloadName(named) == named[..MaxDownloadNameLength - 1]
  {
  }

  /** The last dot of a name is the last dot of the name with `file_` in front of it. */
  lemma AfterLastDotFilePrefix(s: string)
    requires '.' in s
    ensures AfterLastDot("file_" + s) == AfterLastDot(s)
  {
    LastIndexOfAfterPrefix("file_", s, '.');
    var d := LastIndexOf(s, '.');
    assert ("file_" + s)[5 + d + 1..] == s[d + 1..];
  }

  /** Outside the empty name, the first steps keep the dots where they are and make the extension safe. */
  lemma SanitizedNameExtension(filename: string)
    requires filename != ""
    ensures '.' in SanitizedName(filename) <==> '.' in filename
    ensures AfterLastDot(SanitizedName(filename)) == ReplaceUnsafe(AfterLastDot(filename))
  {
    var mapped := ReplaceUnsafe(filename);
    ReplaceUnsafeKeepsDots(filename);
    InIffLastIndexOf(mapped, '.');
    InIffLastIndexOf(filename, '.');
    assert SanitizedName(filename) == WithFilePrefix(mapped);
    WithFilePrefixDots(mapped);
  }

  /**
    For a file name whose extension has at most 98 characters, the download
    name is at most 100 characters long, does not start with '.' or '-', and
    keeps a non-empty (made safe) extension after a final dot.
  */
  lemma SanitizeFilenameBounds(filename: string)
    requires |AfterLastDot(filename)| <= MaxDownloadNameLength - 2
    ensures var r := SanitizeFilename(filename); var e := ReplaceUnsafe(AfterLastDot(filename));
      |r| <= MaxDownloadNameLength && r[0] != '.' && r[0] != '-' && (e != "" ==> EndsWith(r, "." + e))
  {
    var r := SanitizeFilename(filename);
    if filename != "" {
      var named := SanitizedName(filename);
      assert r == LimitDownloadName(named);
      SanitizedNameExtension(filename);
      LimitDownloadNameBounds(named);
    } else {
      assert r == "document.pdf";
    }
  }

  /** The bounds of `SanitizeFilenameBounds`, stated on the name before its length step. */
  lemma LimitDownloadNameBounds(named: string)
    requires named != "" && named[0] != '.' && named[0] != '-' && |AfterLastDot(named)| <= MaxDownloadNameLength - 2
    ensures var r := LimitDownloadName(named); var e := AfterLastDot(named);
      |r| <= MaxDownloadNameLength && r[0] != '.' && r[0] != '-' && (e != "" ==> EndsWith(r, "." + e))
  {
    var r := LimitDownloadName(named);
    var e := AfterLastDot(named);
    InIffLastIndexOf(named, '.');
    LimitDownloadNameShape(named);
    if e != "" {
      var k := |r| - |e| - 1;
      assert |"." + e| == |e| + 1 && |r| - |"." + e| == k;
      assert r[k..] == "." + e;
    }
  }

  /** A safe name of at most 100 characters that starts with neither '.' nor '-' is its own download name. */
  lemma SanitizeFilenameFixedPoint(name: string)
    requires name != "" && AllSafe(name) && name[0] != '.' && name[0] != '-' && |name| <= MaxDownloadNameLength
    ensures SanitizeFilename(name) == name
  {
    ReplaceUnsafeOfSafe(name);
  }

  /** Sanitising twice gives the same name as sanitising once, for extensions of at most 98 characters. */
  lemma SanitizeFilenameIdempotent(filename: string)
    requires |AfterLastDot(filename)| <= MaxDownloadNameLength - 2
    ensures SanitizeFilename(SanitizeFilename(filename)) == SanitizeFilename(filename)
  {
    SanitizeFilenameBounds(filename);
    SanitizeFilenameFixedPoint(SanitizeFilename(filename));
  }

  /**
    With an extension of exactly 99 characters the stem is cut to nothing:
    the download name starts with a dot.
  */
  lemma SanitizeFilenameLongExtension(stem: string, ext: string)
    requires AllSafe(stem) && AllSafe(ext) && '.' !in ext && |ext| == MaxDownloadNameLength - 1
    requires stem != "" && stem[0] != '.' && stem[0] != '-'
    ensures SanitizeFilename(stem + "." + ext) == "." + ext
  {
    var named := stem + "." + ext;
    assert AllSafe(named) by {
      AllSafeConcat(".", ext);
      AllSafeConcat(stem, "." + ext);
      assert named == stem + ("." + ext);
    }
    ReplaceUnsafeOfSafe(named);
    assert named[..1] == [stem[0]];
    assert SanitizedName(named) == named;
    var d := LastIndexOf(named, '.');
    assert named[|stem|] == '.';
    assert d == |stem|;
    assert named[d + 1..] == ext;
  }
}
