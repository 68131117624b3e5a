/** The pure helpers of app/utils/file_helpers.py. */
module FileHelpers {
  import opened Text
  import opened Paths
  import opened Config

  /**
    The characters both file-name cleaners keep (their `safe_chars`: ASCII
    letters, digits, '-', '_' and '.'); every other character becomes '_'.
  */
  predicate IsSafeChar(c: char) {
    ('a' <= c <= 'z') || ('A' <= c <= 'Z') || ('0' <= c <= '9') || c == '-' || c == '_' || c == '.'
  }

  predicate AllSafe(s: string) {
    forall i :: 0 <= i < |s| ==> IsSafeChar(s[i])
  }

  /** `"".join(c if c in safe_chars else "_" for c in s)`. */
  function ReplaceUnsafe(s: string): (r: string)
    ensures |r| == |s|
    ensures forall i :: 0 <= i < |s| ==> r[i] == if IsSafeChar(s[i]) then s[i] else '_'
  {
    seq(|s|, i requires 0 <= i < |s| => if IsSafeChar(s[i]) then s[i] else '_')
  }

  /** The replacement keeps the length, leaves only safe characters and keeps safe ones in place. */
  lemma ReplaceUnsafeSafe(s: string)
    ensures |ReplaceUnsafe(s)| == |s| && AllSafe(ReplaceUnsafe(s))
    ensures forall i :: 0 <= i < |s| ==> (ReplaceUnsafe(s)[i] == s[i] <==> IsSafeChar(s[i]))
  {
    assert IsSafeChar('_');
  }

  /** Replacing characters commutes with taking a tail. */
  lemma ReplaceUnsafeTail(s: string, i: nat)
    requires i <= |s|
    ensures ReplaceUnsafe(s)[i..] == ReplaceUnsafe(s[i..])
  {
  }

  /** Unsafe characters never become dots, so dots stay exactly where they were. */
  lemma ReplaceUnsafeKeepsDots(s: string)
    ensures LastIndexOf(ReplaceUnsafe(s), '.') == LastIndexOf(s, '.')
    ensures FromLastDot(ReplaceUnsafe(s)) == ReplaceUnsafe(FromLastDot(s))
    ensures AfterLastDot(ReplaceUnsafe(s)) == ReplaceUnsafe(AfterLastDot(s))
  {
    var r := ReplaceUnsafe(s);
    assert forall i :: 0 <= i < |s| ==> (r[i] == '.' <==> s[i] == '.');
    LastIndexOfSamePositions(r, s, '.');
    var d := LastIndexOf(s, '.');
    if d >= 0 {
      ReplaceUnsafeTail(s, d);
      ReplaceUnsafeTail(s, d + 1);
    }
  }

  /** A text of safe characters is left as it is. */
  lemma ReplaceUnsafeOfSafe(s: string)
    requires AllSafe(s)
    ensures ReplaceUnsafe(s) == s
  {
  }

  /** `validate_file_size`: a size is accepted when it does not exceed `max_file_size`. */
  function ValidateFileSize(fileSize: int, settings: Settings): (ok: bool)
    ensures ok <==> fileSize <= settings.maxFileSize
  {
    fileSize <= settings.maxFileSize
  }

  /** With the default settings the limit is 50 MiB, inclusive, and every smaller size passes too. */
  lemma DefaultFileSizeLimit(fileSize: int, smaller: int)
    requires smaller <= fileSize
    ensures ValidateFileSize(fileSize, Defaults) <==> fileSize <= 52428800
    ensures ValidateFileSize(fileSize, Defaults) ==> ValidateFileSize(smaller, Defaults)
  {
  }

  /** The word `safe_filename` puts in front of an empty name or a name starting with a dot. */
  const DocumentPrefix: string := "document"

  /** The longest name `safe_filename` aims for. */
  const MaxSafeNameLength: int := 255

  /** The prefix step of `safe_filename`. */
  function WithDocumentPrefix(m: string): (r: string)
    ensures r != "" && r[0] != '.'
    ensures m != "" && m[0] != '.' ==> r == m
    ensures (m == "" || m[0] == '.') ==> r == DocumentPrefix + m
  {
    if m == "" || m[0] == '.' then DocumentPrefix + m else m
  }

  /** `safe_filename`: replace unsafe characters, add a prefix if needed, then cut to 255 characters. */
  function SafeFilename(filename: string): (r: string)
    ensures r != "" && AllSafe(r)
    ensures |WithDocumentPrefix(ReplaceUnsafe(filename))| <= MaxSafeNameLength ==> r == WithDocumentPrefix(ReplaceUnsafe(filename))
  {
    var named := WithDocumentPrefix(ReplaceUnsafe(filename));
    PrefixedName(filename);
    if |named| > MaxSafeNameLength then CutToLimit(named) else named
  }

  /** The length limit of `safe_filename`: `name[:255-len(ext)] + ext` after `os.path.splitext`. */
  function CutToLimit(named: string): (r: string)
    requires AllSafe(named) && |named| > MaxSafeNameLength
    ensures r != "" && AllSafe(r)
  {
    var (root, ext) := SplitExt(named);
    CutKeepsSafe(root, ext);
    SliceTo(root, MaxSafeNameLength - |ext|) + ext
  }

  /** Cutting the stem of a safe name that is too long leaves a safe, non-empty name. */
  lemma CutKeepsSafe(root: string, ext: string)
    requires AllSafe(root + ext) && |root + ext| > MaxSafeNameLength
    ensures var r := SliceTo(root, MaxSafeNameLength - |ext|) + ext; r != "" && AllSafe(r)
  {
    var n := root + ext;
    assert forall i :: 0 <= i < |root| ==> root[i] == n[i];
    assert forall i :: 0 <= i < |ext| ==> ext[i] == n[|root| + i];
    var cut := SliceTo(root, MaxSafeNameLength - |ext|);
    assert forall i :: 0 <= i < |cut| ==> cut[i] == root[i];
    AllSafeConcat(cut, ext);
  }

  /** Every safe name shorter than 256 characters that does not start with a dot is left as it is. */
  lemma SafeFilenameFixedPoint(s: string)
    requires s != "" && s[0] != '.' && AllSafe(s) && |s| <= MaxSafeNameLength
    ensures SafeFilename(s) == s
  {
    ReplaceUnsafeOfSafe(s);
  }

  lemma AllSafeConcat(a: string, b: string)
    requires AllSafe(a) && AllSafe(b)
    ensures AllSafe(a + b)
  {
    assert forall i :: |a| <= i < |a + b| ==> (a + b)[i] == b[i - |a|];
  }

  /** The name `safe_filename` cuts is safe and has the (replaced) extension of the input. */
  lemma PrefixedName(filename: string)
    ensures var named := WithDocumentPrefix(ReplaceUnsafe(filename));
      AllSafe(named) && FromLastDot(named) == ReplaceUnsafe(FromLastDot(filename))
  {
    var m := ReplaceUnsafe(filename);
    ReplaceUnsafeSafe(filename);
    ReplaceUnsafeKeepsDots(filename);
    if m == "" || m[0] == '.' {
      DocumentPrefixed(m);
    }
  }

  /** Putting `document` in front of a safe text keeps it safe and keeps its extension. */
  lemma DocumentPrefixed(m: string)
    requires AllSafe(m)
    ensures AllSafe(DocumentPrefix + m) && FromLastDot(DocumentPrefix + m) == FromLastDot(m)
  {
    assert AllSafe(DocumentPrefix) && '.' !in DocumentPrefix;
    AllSafeConcat(DocumentPrefix, m);
    if '.' in m {
      FromLastDotAfterPrefix(DocumentPrefix, m);
    } else {
      LastIndexOfAfterPrefix(DocumentPrefix, m, '.');
    }
  }

  /** On a safe name that does not start with a dot, `splitext` splits exactly at the last dot. */
  lemma SplitExtOfSafeName(named: string)
    requires AllSafe(named) && named != "" && named[0] != '.'
    ensures var ext := FromLastDot(named); SplitExt(named) == (named[..|named| - |ext|], ext)
  {
    assert LastIndexOf(named, '/') == -1 by {
      assert !IsSafeChar('/');
    }
    var d := LastIndexOf(named, '.');
    if d >= 0 {
      assert named[0..d][0] == named[0];
      assert !OnlyDots(named[0..d]);
    }
  }

  /**
    When the extension (last dot onwards) is shorter than 255 characters the
    result fits in 255 characters, keeps that extension and does not start with a dot.
  */
  lemma SafeFilenameLimit(filename: string)
    requires |FromLastDot(filename)| < MaxSafeNameLength
    ensures var r := SafeFilename(filename);
      var ext := ReplaceUnsafe(FromLastDot(filename));
      && |r| <= MaxSafeNameLength
      && |ext| <= |r| && r[|r| - |ext|..] == ext
      && r[0] != '.'
      && var named := WithDocumentPrefix(ReplaceUnsafe(filename));
         |named| > MaxSafeNameLength ==> r == named[..MaxSafeNameLength - |ext|] + ext
  {
    var named := WithDocumentPrefix(ReplaceUnsafe(filename));
    PrefixedName(filename);
    var r := SafeFilename(filename);
    if |named| > MaxSafeNameLength {
      assert r == CutToLimit(named);
      CutToLimitShape(named);
    } else {
      assert r == named;
    }
  }

  /** A safe name longer than 255 characters with a shorter extension is cut to exactly 255, keeping that extension. */
  lemma CutToLimitShape(named: string)
    requires AllSafe(named) && |named| > MaxSafeNameLength && named[0] != '.'
    requires |FromLastDot(named)| < MaxSafeNameLength
    ensures var r := CutToLimit(named); var ext := FromLastDot(named);
      && |r| == MaxSafeNameLength && r[|r| - |ext|..] == ext && r[0] == named[0]
      && r == named[..MaxSafeNameLength - |ext|] + ext
  {
    SplitExtOfSafeName(named);
    var ext := FromLastDot(named);
    var root := named[..|named| - |ext|];
    var cut := SliceTo(root, MaxSafeNameLength - |ext|);
    assert |cut| == MaxSafeNameLength - |ext|;
    assert CutToLimit(named) == cut + ext;
    assert (cut + ext)[|cut|..] == ext;
    assert cut[0] == root[0] == named[0];
    assert cut == named[..MaxSafeNameLength - |ext|];
  }

  /** Applying `safe_filename` to its own result changes nothing when the extension is shorter than 255 characters. */
  lemma SafeFilenameIdempotent(filename: string)
    requires |FromLastDot(filename)| < MaxSafeNameLength
    ensures SafeFilename(SafeFilename(filename)) == SafeFilename(filename)
  {
    SafeFilenameLimit(filename);
    SafeFilenameFixedPoint(SafeFilename(filename));
  }

  /** In particular `safe_filename` is idempotent on every name of at most 247 characters. */
  lemma SafeFilenameIdempotentShort(filename: string)
    requires |filename| <= 247
    ensures SafeFilename(SafeFilename(filename)) == SafeFilename(filename)
  {
    SafeFilenameIdempotent(filename);
  }

  /** `get_file_extension`: `Path(filename).suffix.lower()`. */
  function GetFileExtension(filename: string): (r: string)
    ensures r == "" || (|r| >= 2 && r[0] == '.' && '.' !in r[1..])
    ensures forall i :: 0 <= i < |r| ==> !('A' <= r[i] <= 'Z')
    ensures r != "" <==> 0 < LastIndexOf(Name(filename), '.') < |Name(filename)| - 1
    ensures r != "" ==> r == Lower(Name(filename)[LastIndexOf(Name(filename), '.')..])
  {
    var s := Suffix(Name(filename));
    assert forall i :: 0 <= i < |s| ==> (Lower(s)[i] == '.' <==> s[i] == '.');
    Lower(s)
  }

  /** A component `stem.x` with a non-empty stem and `x` free of dots has extension `.x`, lower-cased. */
  lemma GetFileExtensionOfName(stem: string, x: string)
    requires stem != "" && x != ""
    requires '/' !in stem && '/' !in x && '.' !in x
    ensures GetFileExtension(stem + "." + x) == Lower("." + x)
  {
    var n := stem + "." + x;
    assert '/' !in n by {
      assert forall k :: 0 <= k < |n| ==> n[k] == (if k < |stem| then stem[k] else if k == |stem| then '.' else x[k - |stem| - 1]);
    }
    assert n != "." by { assert |n| >= 3; }
    NameOfComponent(n);
    assert n[|stem|] == '.';
    assert forall k :: |stem| < k < |n| ==> n[k] == x[k - |stem| - 1];
    assert LastIndexOf(n, '.') == |stem|;
    assert n[|stem|..] == "." + x;
  }
}
