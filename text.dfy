/** The string operations the handlers rely on: JavaScript's `trim`, the decimal
    form of a millisecond clock value, Node's `path.extname`, and the object-store
    key and URL of an uploaded image. */
module Text {
  import opened Http

  /** The code points ECMAScript counts as WhiteSpace or LineTerminator: the ones
      `String.prototype.trim` strips from both ends of a string. */
  predicate IsJsWhitespace(c: char)
  {
    || c == '\t' || c == '\n' || c == '\U{000B}' || c == '\U{000C}' || c == '\r'
    || c == ' ' || c == '\U{00A0}' || c == '\U{1680}' || ('\U{2000}' <= c <= '\U{200A}')
    || c == '\U{2028}' || c == '\U{2029}' || c == '\U{202F}' || c == '\U{205F}'
    || c == '\U{3000}' || c == '\U{FEFF}'
  }

  predicate IsBlank(s: string)
  {
    forall i :: 0 <= i < |s| ==> IsJsWhitespace(s[i])
  }

  /** `s` without its leading whitespace: the longest suffix not starting with whitespace. */
  function TrimStart(s: string): (r: string)
    ensures |r| <= |s| && r == s[|s| - |r|..]
    ensures r == [] || !IsJsWhitespace(r[0])
    ensures IsBlank(s[..|s| - |r|])
  {
    if s != [] && IsJsWhitespace(s[0]) then TrimStart(s[1..]) else s
  }

  /** `s` without its trailing whitespace: the longest prefix not ending in whitespace. */
  function TrimEnd(s: string): (r: string)
    ensures |r| <= |s| && r == s[..|r|]
    ensures r == [] || !IsJsWhitespace(r[|r| - 1])
    ensures IsBlank(s[|r|..])
  {
    if s != [] && IsJsWhitespace(s[|s| - 1]) then TrimEnd(s[..|s| - 1]) else s
  }

  /** `String.prototype.trim`. The handlers test `s.trim() === ""`, which holds
      exactly when every character of `s` is whitespace (the empty string included). */
  function Trim(s: string): (r: string)
    ensures |r| <= |s|
    ensures r == [] || (!IsJsWhitespace(r[0]) && !IsJsWhitespace(r[|r| - 1]))
    ensures r == [] <==> IsBlank(s)
  {
    var t := TrimStart(s);
    var r := TrimEnd(t);
    assert r == [] ==> IsBlank(s) by {
      if r == [] {
        assert t == [];
        assert s[..|s| - |t|] == s;
      }
    }
    r
  }

  predicate IsDigits(s: string)
  {
    forall i :: 0 <= i < |s| ==> '0' <= s[i] <= '9'
  }

  function DigitChar(d: nat): (c: char)
    requires d < 10
    ensures '0' <= c <= '9' && c as int - '0' as int == d
  {
    (d + '0' as int) as char
  }

  /** The decimal notation a template literal gives a non-negative integer such as
      `Date.now()`. */
  function Decimal(n: nat): (r: string)
    ensures r != [] && IsDigits(r)
    ensures r[0] != '0' || n == 0
  {
    if n < 10 then [DigitChar(n)] else Decimal(n / 10) + [DigitChar(n % 10)]
  }

  /** The number a string of decimal digits denotes. */
  function DigitsValue(s: string): nat
    requires IsDigits(s)
  {
    if s == [] then 0 else DigitsValue(s[..|s| - 1]) * 10 + (s[|s| - 1] as int - '0' as int)
  }

  /** Reading the decimal notation back gives the number: no two clock values print alike. */
  lemma {:induction false} DigitsValueOfDecimal(n: nat)
    ensures DigitsValue(Decimal(n)) == n
  {
    if n >= 10 {
      DigitsValueOfDecimal(n / 10);
      var d := Decimal(n);
      assert d[..|d| - 1] == Decimal(n / 10);
    }
  }

  /** Index of the last occurrence of `c` in `s`, if any. */
  function LastIndexOf(s: string, c: char): (r: Option<nat>)
    ensures r.Some? ==> r.value < |s| && s[r.value] == c && forall j :: r.value < j < |s| ==> s[j] != c
    ensures r.None? ==> forall j :: 0 <= j < |s| ==> s[j] != c
  {
    if s == [] then None
    else if s[|s| - 1] == c then Some(|s| - 1)
    else LastIndexOf(s[..|s| - 1], c)
  }

  /** The last path segment of a file name: what follows its last '/'. */
  function BaseName(name: string): (r: string)
    ensures |r| <= |name| && r == name[|name| - |r|..]
    ensures '/' !in r
    ensures |r| == |name| || name[|name| - |r| - 1] == '/'
  {
    match LastIndexOf(name, '/')
    case None => name
    case Some(i) => name[i + 1..]
  }

  /** Node's `path.extname`: the base name from its last '.' on, or "" when the base
      name has no '.', when that '.' is its first character (".bashrc"), or when the
      base name is "..". */
  function ExtName(name: string): (r: string)
    ensures |r| <= |name| && r == name[|name| - |r|..]
    ensures r == [] || r[0] == '.'
    ensures forall j :: 0 <= j < |r| ==> r[j] != '/'
    ensures forall j :: 0 < j < |r| ==> r[j] != '.'
  {
    var base := BaseName(name);
    match LastIndexOf(base, '.')
    case None => ""
    case Some(d) =>
      if d == 0 || base == ".." then ""
      else
        var r := base[d..];
        assert forall j :: 0 <= j < |r| ==> r[j] == base[d + j];
        r
  }

  /** The extension is empty exactly when the base name has no '.', has its only '.'
      in front (".bashrc"), or is "..". */
  lemma ExtNameEmpty(name: string)
    ensures var b := BaseName(name);
      ExtName(name) == [] <==> '.' !in b || (b[0] == '.' && '.' !in b[1..]) || b == ".."
  {
    var b := BaseName(name);
    match LastIndexOf(b, '.')
    case None =>
    case Some(d) =>
      if d == 0 {
        assert forall j :: 0 <= j < |b[1..]| ==> b[1..][j] == b[j + 1];
      } else if b != ".." {
        assert b[d] == '.';
        assert b[1..][d - 1] == '.';
      }
  }

  /** The object-store key of an upload: `<folder>/<ownerId>-<millis><ext>`. */
  function StorageKey(folder: string, ownerId: Id, millis: nat, ext: string): string
  {
    folder + "/" + ownerId + "-" + Decimal(millis) + ext
  }

  /** A key reads back as its parts: the `<folder>/<ownerId>-` prefix, then the
      clock reading in decimal digits with no leading zero, then the extension. */
  lemma StorageKeyLayout(folder: string, ownerId: Id, millis: nat, ext: string)
    ensures var key := StorageKey(folder, ownerId, millis, ext);
      var p := folder + "/" + ownerId + "-";
      && |p| < |key| - |ext|
      && key[..|p|] == p
      && key[|key| - |ext|..] == ext
      && IsDigits(key[|p|..|key| - |ext|])
      && DigitsValue(key[|p|..|key| - |ext|]) == millis
  {
    var key := StorageKey(folder, ownerId, millis, ext);
    var p := folder + "/" + ownerId + "-";
    assert key[|p|..|key| - |ext|] == Decimal(millis);
    DigitsValueOfDecimal(millis);
  }

  /** For one owner and extension, uploads at different milliseconds get different keys. */
  lemma {:induction false} StorageKeyInjective(folder: string, ownerId: Id, t1: nat, t2: nat, ext: string)
    requires StorageKey(folder, ownerId, t1, ext) == StorageKey(folder, ownerId, t2, ext)
    ensures t1 == t2
  {
    var p := folder + "/" + ownerId + "-";
    var d1, d2 := Decimal(t1), Decimal(t2);
    var k := StorageKey(folder, ownerId, t1, ext);
    assert k == p + d1 + ext && k == p + d2 + ext;
    assert |d1| == |d2|;
    assert d1 == k[|p|..|p| + |d1|];
    assert d2 == k[|p|..|p| + |d2|];
    DigitsValueOfDecimal(t1);
    DigitsValueOfDecimal(t2);
  }

  /** The public URL of an object: `https://<bucket>.s3.<region>.amazonaws.com/<key>`.
      It ends with the key, so distinct keys give distinct URLs. */
  function ObjectUrl(bucket: string, region: string, key: string): (url: string)
    ensures |key| <= |url| && url[|url| - |key|..] == key
  {
    "https://" + bucket + ".s3." + region + ".amazonaws.com/" + key
  }

  /** Where an uploaded file ends up: the URL of the object stored under
      `<folder>/<ownerId>-<millis><ext>`, `ext` taken from the file's original name. */
  function UploadUrl(bucket: string, region: string, folder: string, ownerId: Id, millis: nat, file: Upload): string
  {
    ObjectUrl(bucket, region, StorageKey(folder, ownerId, millis, ExtName(file.originalname)))
  }

  /** The URL of an upload ends with its object key, whose extension is the one of
      the file's original name. */
  lemma UploadUrlEndsWithKey(bucket: string, region: string, folder: string, ownerId: Id, millis: nat, file: Upload)
    ensures var key := StorageKey(folder, ownerId, millis, ExtName(file.originalname));
      var url := UploadUrl(bucket, region, folder, ownerId, millis, file);
      |key| <= |url| && url[|url| - |key|..] == key
  {
  }

  /** Two uploads by one owner, of files with the same extension, at different
      milliseconds land at different URLs. */
  lemma {:induction false} UploadUrlInjective(bucket: string, region: string, folder: string, ownerId: Id,
                                              t1: nat, t2: nat, file: Upload)
    requires UploadUrl(bucket, region, folder, ownerId, t1, file) == UploadUrl(bucket, region, folder, ownerId, t2, file)
    ensures t1 == t2
  {
    var ext := ExtName(file.originalname);
    var prefix := "https://" + bucket + ".s3." + region + ".amazonaws.com/";
    var k1, k2 := StorageKey(folder, ownerId, t1, ext), StorageKey(folder, ownerId, t2, ext);
    var url := UploadUrl(bucket, region, folder, ownerId, t1, file);
    assert url == prefix + k1 && url == prefix + k2;
    assert k1 == url[|prefix|..] == k2;
    StorageKeyInjective(folder, ownerId, t1, t2, ext);
  }
}
