/** Where the input comes from and what the cache calls it: the URL test
    that decides between downloading and reading a file, and the cache file
    names derived from the URL's MD5 digest. The digest itself is a
    parameter (`md5`); the model formats it as `%x` does. */
module Sources {
  type byte = b: int | 0 <= b < 256

  /** strings.HasPrefix: `s` begins with `p`. */
  predicate HasPrefix(s: string, p: string): (b: bool)
    ensures b <==> |p| <= |s| && forall i :: 0 <= i < |p| ==> s[i] == p[i]
  {
    |p| <= |s| && s[..|p|] == p
  }

  /** `HasPrefix` agrees with the definition "some suffix completes `p` to `s`". */
  lemma HasPrefixIffSplits(s: string, p: string)
    ensures HasPrefix(s, p) <==> exists rest :: p + rest == s
  {
    if HasPrefix(s, p) {
      assert p + s[|p|..] == s;
    }
    forall rest | p + rest == s ensures HasPrefix(s, p) {
      assert s[..|p|] == p;
    }
  }

  /** isURL: the input names a URL when it starts with an HTTP or HTTPS scheme. */
  predicate IsURL(s: string): (b: bool)
    ensures b <==> 7 <= |s| && s[..4] == "http" && (s[4..7] == "://" || (8 <= |s| && s[4..8] == "s://"))
  {
    HasPrefix(s, "http://") || HasPrefix(s, "https://")
  }

  /** An input is a URL exactly when it is `http://` or `https://` followed
      by anything, the empty remainder included. */
  lemma IsURLIffScheme(s: string)
    ensures IsURL(s) <==> (exists rest :: "http://" + rest == s) || (exists rest :: "https://" + rest == s)
  {
    HasPrefixIffSplits(s, "http://");
    HasPrefixIffSplits(s, "https://");
  }

  /** A URL input, and inputs that are plain paths or use another scheme
      or upper case. */
  lemma IsURLExamples()
    ensures IsURL("https://example.com/config.yaml")
    ensures !IsURL("config.yaml")
    ensures !IsURL("ftp://example.com/config.yaml")
    ensures !IsURL("HTTP://example.com")
  {
    assert "https://example.com/config.yaml"[..8] == "https://";
    NotPrefixAt("config.yaml", "http://", 0);
    NotPrefixAt("config.yaml", "https://", 0);
    NotPrefixAt("ftp://example.com/config.yaml", "http://", 0);
    NotPrefixAt("ftp://example.com/config.yaml", "https://", 0);
    NotPrefixAt("HTTP://example.com", "http://", 0);
    NotPrefixAt("HTTP://example.com", "https://", 0);
  }

  /** One differing character rules a prefix out. */
  lemma NotPrefixAt(s: string, p: string, i: nat)
    requires i < |p| && i < |s| && s[i] != p[i]
    ensures !HasPrefix(s, p)
  {
  }

  predicate IsHexDigit(c: char) {
    '0' <= c <= '9' || 'a' <= c <= 'f'
  }

  /** The `%x` digit for a nibble. */
  function HexDigit(n: int): (c: char)
    requires 0 <= n < 16
    ensures IsHexDigit(c)
  {
    if n < 10 then ('0' as int + n) as char else ('a' as int + n - 10) as char
  }

  /** The nibble a `%x` digit stands for. */
  function DigitValue(c: char): (n: int)
    requires IsHexDigit(c)
    ensures 0 <= n < 16 && HexDigit(n) == c
  {
    if '0' <= c <= '9' then c as int - '0' as int else c as int - 'a' as int + 10
  }

  /** fmt's `%x` of a byte sequence: two lower-case hex digits per byte,
      high nibble first. */
  function Hex(bytes: seq<byte>): (h: string)
    ensures |h| == 2 * |bytes|
    ensures forall i :: 0 <= i < |h| ==> IsHexDigit(h[i])
  {
    if bytes == [] then []
    else [HexDigit(bytes[0] / 16), HexDigit(bytes[0] % 16)] + Hex(bytes[1..])
  }

  /** Reads back a string of `%x` digit pairs. */
  function Unhex(h: string): (bytes: seq<byte>)
    requires |h| % 2 == 0
    requires forall i :: 0 <= i < |h| ==> IsHexDigit(h[i])
    ensures 2 * |bytes| == |h|
  {
    if h == [] then []
    else [16 * DigitValue(h[0]) + DigitValue(h[1])] + Unhex(h[2..])
  }

  /** `%x` loses nothing: the digest is recovered from its text. */
  lemma {:induction false} UnhexHex(bytes: seq<byte>)
    ensures Unhex(Hex(bytes)) == bytes
  {
    if bytes != [] {
      var h := Hex(bytes);
      assert h[2..] == Hex(bytes[1..]);
      UnhexHex(bytes[1..]);
      var b := bytes[0];
      assert DigitValue(h[0]) == b / 16 && DigitValue(h[1]) == b % 16;
    }
  }

  /** generateFileName: the hex MD5 digest of the URL, followed by `.` and
      the extension unless the extension is empty. */
  function GenerateFileName(md5: string -> seq<byte>, url: string, extension: string): (name: string)
    ensures |name| == 2 * |md5(url)| + (if extension == "" then 0 else 1 + |extension|)
    ensures name[..2 * |md5(url)|] == Hex(md5(url))
  {
    var hash := Hex(md5(url));
    if extension == "" then hash else hash + "." + extension
  }

  /** Splits a cache file name at its first `.` into digest text and
      extension; a name without a `.` has the empty extension. */
  function SplitFileName(name: string): (parts: (string, string))
    ensures '.' !in name ==> parts == (name, "")
    ensures '.' in name ==> parts.0 + "." + parts.1 == name && '.' !in parts.0
  {
    if name == [] then ([], [])
    else if name[0] == '.' then ([], name[1..])
    else
      var rest := SplitFileName(name[1..]);
      assert name == [name[0]] + name[1..];
      ([name[0]] + rest.0, rest.1)
  }

  /** A text made of hex digits splits off no extension. */
  lemma {:induction false} SplitDigits(hash: string, tail: string)
    requires forall i :: 0 <= i < |hash| ==> IsHexDigit(hash[i])
    ensures SplitFileName(hash + tail) == (hash + SplitFileName(tail).0, SplitFileName(tail).1)
  {
    if hash != [] {
      var t := hash[1..] + tail;
      assert hash + tail == [hash[0]] + t;
      SplitDigits(hash[1..], tail);
      SplitCons(hash[0], t);
      ConsAppend(hash, SplitFileName(tail).0);
    } else {
      assert hash + tail == tail;
      assert hash + SplitFileName(tail).0 == SplitFileName(tail).0;
    }
  }

  lemma ConsAppend(s: string, t: string)
    requires s != []
    ensures [s[0]] + (s[1..] + t) == s + t
  {
    assert s == [s[0]] + s[1..];
  }

  /** A leading character other than `.` stays with the digest text. */
  lemma SplitCons(c: char, t: string)
    requires c != '.'
    ensures SplitFileName([c] + t) == ([c] + SplitFileName(t).0, SplitFileName(t).1)
  {
    assert ([c] + t)[0] == c && ([c] + t)[1..] == t;
  }

  /** A cache file name gives back the digest of the URL and the extension. */
  lemma FileNameRoundTrip(md5: string -> seq<byte>, url: string, extension: string)
    ensures SplitFileName(GenerateFileName(md5, url, extension)) == (Hex(md5(url)), extension)
    ensures '.' in GenerateFileName(md5, url, extension) <==> extension != ""
  {
    FileNameSplits(md5, url, extension);
    FileNameDot(md5, url, extension);
  }

  lemma FileNameSplits(md5: string -> seq<byte>, url: string, extension: string)
    ensures SplitFileName(GenerateFileName(md5, url, extension)) == (Hex(md5(url)), extension)
  {
    if extension == "" {
      SplitDigitsOnly(Hex(md5(url)));
    } else {
      SplitDigitsDot(Hex(md5(url)), extension);
    }
  }

  /** Hex digits alone split into themselves and no extension. */
  lemma SplitDigitsOnly(hash: string)
    requires forall i :: 0 <= i < |hash| ==> IsHexDigit(hash[i])
    ensures SplitFileName(hash) == (hash, "")
  {
    SplitDigits(hash, "");
    assert hash + "" == hash;
  }

  /** Hex digits, a `.` and an extension split at that `.`. */
  lemma SplitDigitsDot(hash: string, extension: string)
    requires forall i :: 0 <= i < |hash| ==> IsHexDigit(hash[i])
    ensures SplitFileName(hash + "." + extension) == (hash, extension)
  {
    var tail := "." + extension;
    SplitDigits(hash, tail);
    assert hash + "." + extension == hash + tail;
    assert tail[0] == '.' && tail[1..] == extension;
    assert SplitFileName(tail) == ([], extension);
    assert hash + [] == hash;
  }

  /** The name has a `.` exactly when the extension is not empty. */
  lemma FileNameDot(md5: string -> seq<byte>, url: string, extension: string)
    ensures '.' in GenerateFileName(md5, url, extension) <==> extension != ""
  {
    var hash := Hex(md5(url));
    if extension == "" {
      forall i | 0 <= i < |hash| ensures hash[i] != '.' {
        assert IsHexDigit(hash[i]);
      }
    } else {
      assert GenerateFileName(md5, url, extension)[|hash|] == '.';
    }
  }

  /** For one URL, distinct extensions give distinct cache files. */
  lemma FileNameInjective(md5: string -> seq<byte>, url: string, e1: string, e2: string)
    ensures GenerateFileName(md5, url, e1) == GenerateFileName(md5, url, e2) <==> e1 == e2
  {
    FileNameRoundTrip(md5, url, e1);
    FileNameRoundTrip(md5, url, e2);
  }

  /** The cached copy and its ETag record never share a file name. */
  lemma CacheFilesDistinct(md5: string -> seq<byte>, url: string)
    ensures GenerateFileName(md5, url, "") != GenerateFileName(md5, url, "etag")
  {
    FileNameInjective(md5, url, "", "etag");
  }

  /** Two URLs share a cache file name only when their MD5 digests are equal. */
  lemma SameNameSameDigest(md5: string -> seq<byte>, u1: string, u2: string, extension: string)
    requires GenerateFileName(md5, u1, extension) == GenerateFileName(md5, u2, extension)
    ensures md5(u1) == md5(u2)
  {
    FileNameRoundTrip(md5, u1, extension);
    FileNameRoundTrip(md5, u2, extension);
    UnhexHex(md5(u1));
    UnhexHex(md5(u2));
  }
}
