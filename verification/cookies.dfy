/**
 The cookie-header parser of backend/servidor.py (`obter_usuario_id`): split
 the header on `;`, keep each segment that contains `=`, strip it, split it
 at its first `=` into a name and a value, let later names override earlier
 ones, and look up `usuario_id`.
 */
module Cookies {
  import opened Wrappers

  /** The cookie that carries the voter's id. */
  const UserIdCookie: string := "usuario_id"

  /** One parsed `name=value` segment. */
  datatype Cookie = Cookie(name: string, value: string)

  /** The characters Python's `str.strip()` removes (those for which `str.isspace()` holds). */
  predicate IsSpace(c: char) {
    var n := c as int;
    || n == 0x20 || 0x09 <= n <= 0x0D || 0x1C <= n <= 0x1F
    || n == 0x85 || n == 0xA0 || n == 0x1680 || 0x2000 <= n <= 0x200A
    || n == 0x2028 || n == 0x2029 || n == 0x202F || n == 0x205F || n == 0x3000
  }

  /** Every character of `s` is white space. */
  predicate AllSpace(s: string) {
    forall k :: 0 <= k < |s| ==> IsSpace(s[k])
  }

  // ---------------------------------------------------------------- split

  /** The pieces joined back with `sep` between them (the inverse of `Split`). */
  function Join(parts: seq<string>, sep: char): string
    requires |parts| >= 1
    decreases |parts|
  {
    if |parts| == 1 then parts[0] else parts[0] + [sep] + Join(parts[1..], sep)
  }

  /**
   Python's `s.split(sep)`: the maximal pieces between separators. There is
   always one piece more than there are separators, so an empty string gives
   one empty piece.
   */
  function Split(s: string, sep: char): (parts: seq<string>)
    ensures |parts| >= 1
    ensures forall i :: 0 <= i < |parts| ==> sep !in parts[i]
    ensures Join(parts, sep) == s
    decreases |s|
  {
    if |s| == 0 then [""]
    else
      var rest := Split(s[1..], sep);
      if s[0] == sep then
        assert [sep] + Join(rest, sep) == s;
        [""] + rest
      else
        var parts := [[s[0]] + rest[0]] + rest[1..];
        assert parts[1..] == rest[1..];
        assert Join(parts, sep) == [s[0]] + Join(rest, sep);
        parts
  }

  /** Splitting recovers the pieces that were joined, when none contains the separator. */
  lemma {:induction false} SplitJoin(parts: seq<string>, sep: char)
    requires |parts| >= 1
    requires forall i :: 0 <= i < |parts| ==> sep !in parts[i]
    ensures Split(Join(parts, sep), sep) == parts
    decreases |parts|
  {
    if |parts| == 1 {
      SplitWithoutSeparator(parts[0], sep);
    } else {
      SplitJoin(parts[1..], sep);
      SplitAppend(parts[0], Join(parts[1..], sep), sep);
      SplitWithoutSeparator(parts[0], sep);
      assert parts == [parts[0]] + parts[1..];
    }
  }

  /** A string without the separator is a single piece. */
  lemma {:induction false} SplitWithoutSeparator(s: string, sep: char)
    requires sep !in s
    ensures Split(s, sep) == [s]
    decreases |s|
  {
    if |s| > 0 {
      assert sep !in s[1..] by {
        forall k | 0 <= k < |s[1..]| ensures s[1..][k] != sep {
          assert s[1..][k] == s[k + 1];
        }
      }
      SplitWithoutSeparator(s[1..], sep);
      assert [s[0]] + s[1..] == s;
    }
  }

  /** Splitting `a`, a separator, then `b` gives the pieces of `a` followed by those of `b`. */
  lemma {:induction false} SplitAppend(a: string, b: string, sep: char)
    ensures Split(a + [sep] + b, sep) == Split(a, sep) + Split(b, sep)
    decreases |a|
  {
    var s := a + [sep] + b;
    if |a| == 0 {
      assert s[1..] == b;
    } else {
      assert s[1..] == a[1..] + [sep] + b;
      SplitAppend(a[1..], b, sep);
    }
  }

  // ---------------------------------------------------------------- strip

  /** Python's `str.lstrip()`; what it removes is `LStripRemovesSpace`. */
  function LStrip(s: string): (r: string)
    ensures |r| <= |s|
    ensures r == [] || !IsSpace(r[0])
    decreases |s|
  {
    if |s| > 0 && IsSpace(s[0]) then LStrip(s[1..]) else s
  }

  /** Python's `str.rstrip()`; what it removes is `RStripRemovesSpace`. */
  function RStrip(s: string): (r: string)
    ensures |r| <= |s|
    ensures r == [] || !IsSpace(r[|r| - 1])
    decreases |s|
  {
    if |s| > 0 && IsSpace(s[|s| - 1]) then RStrip(s[..|s| - 1]) else s
  }

  /** `lstrip()` drops a prefix made only of white space. */
  lemma {:induction false} LStripRemovesSpace(s: string)
    ensures LStrip(s) == s[|s| - |LStrip(s)|..]
    ensures AllSpace(s[..|s| - |LStrip(s)|])
    decreases |s|
  {
    if |s| > 0 && IsSpace(s[0]) {
      var t := s[1..];
      LStripRemovesSpace(t);
      var n := |s| - |LStrip(s)|;
      assert s[n..] == t[n - 1..];
      assert s[..n] == [s[0]] + t[..n - 1];
    }
  }

  /** `rstrip()` drops a suffix made only of white space. */
  lemma {:induction false} RStripRemovesSpace(s: string)
    ensures RStrip(s) == s[..|RStrip(s)|]
    ensures AllSpace(s[|RStrip(s)|..])
    decreases |s|
  {
    if |s| > 0 && IsSpace(s[|s| - 1]) {
      var t := s[..|s| - 1];
      RStripRemovesSpace(t);
      var n := |RStrip(s)|;
      assert s[..n] == t[..n];
      assert s[n..] == t[n..] + [s[|s| - 1]];
    }
  }

  /**
   Python's `str.strip()`: leading and trailing white space removed. That
   nothing else is removed is `StripIsTrim`.
   */
  function Strip(s: string): (r: string)
    ensures |r| <= |s|
    ensures r == [] || (!IsSpace(r[0]) && !IsSpace(r[|r| - 1]))
  {
    var l := LStrip(s);
    RStripRemovesSpace(l);
    assert RStrip(l) == [] || RStrip(l)[0] == l[0];
    RStrip(l)
  }

  /** `Strip` removes white space from the two ends of the string and nothing more. */
  lemma StripIsTrim(s: string)
    ensures exists a, b :: s == a + Strip(s) + b && AllSpace(a) && AllSpace(b)
  {
    var l := LStrip(s);
    var r := RStrip(l);
    LStripRemovesSpace(s);
    RStripRemovesSpace(l);
    var a := s[..|s| - |l|];
    var b := l[|r|..];
    assert l == s[|s| - |l|..];
    assert s == a + l;
    assert r == l[..|r|];
    assert l == r + b;
    assert Strip(s) == r;
    assert s == a + r + b;
    assert AllSpace(a) && AllSpace(b);
  }

  /** `lstrip()` keeps every character that is not white space. */
  lemma {:induction false} LStripKeeps(s: string, c: char)
    requires c in s && !IsSpace(c)
    ensures c in LStrip(s)
    decreases |s|
  {
    if IsSpace(s[0]) {
      assert s == [s[0]] + s[1..];
      LStripKeeps(s[1..], c);
    }
  }

  /** `rstrip()` keeps every character that is not white space. */
  lemma {:induction false} RStripKeeps(s: string, c: char)
    requires c in s && !IsSpace(c)
    ensures c in RStrip(s)
    decreases |s|
  {
    if IsSpace(s[|s| - 1]) {
      assert s == s[..|s| - 1] + [s[|s| - 1]];
      RStripKeeps(s[..|s| - 1], c);
    }
  }

  // ---------------------------------------------------------------- segments

  /** The position of the first `c` in `s`. */
  function IndexOf(s: string, c: char): (i: nat)
    requires c in s
    ensures i < |s| && s[i] == c
    ensures c !in s[..i]
    decreases |s|
  {
    if s[0] == c then 0
    else
      var j := IndexOf(s[1..], c);
      assert s[..j + 1] == [s[0]] + s[1..][..j];
      j + 1
  }

  /**
   One segment of the header: ignored unless it contains `=`; otherwise
   stripped and split at its FIRST `=`, so the name has no `=` and the value
   may contain more of them.
   */
  function ParseSegment(segment: string): (r: Option<Cookie>)
    ensures r.None? <==> '=' !in segment
    ensures r.Some? ==> '=' !in r.value.name
    ensures r.Some? ==> Strip(segment) == r.value.name + "=" + r.value.value
  {
    if '=' in segment then
      LStripKeeps(segment, '=');
      RStripKeeps(LStrip(segment), '=');
      var t := Strip(segment);
      var i := IndexOf(t, '=');
      assert t == t[..i] + "=" + t[i + 1..];
      Some(Cookie(t[..i], t[i + 1..]))
    else None
  }

  /** Every segment of the header, parsed. */
  function ParseAll(segments: seq<string>): seq<Option<Cookie>> {
    seq(|segments|, i requires 0 <= i < |segments| => ParseSegment(segments[i]))
  }

  /** Whether parsed segment `i` defines a cookie called `name`. */
  predicate DefinedAt(cookies: seq<Option<Cookie>>, i: int, name: string) {
    0 <= i < |cookies| && cookies[i].Some? && cookies[i].value.name == name
  }

  /** Whether parsed segment `i` is the last one that defines `name`. */
  predicate LastDefinedAt(cookies: seq<Option<Cookie>>, i: int, name: string) {
    && DefinedAt(cookies, i, name)
    && forall j :: i < j < |cookies| ==> !DefinedAt(cookies, j, name)
  }

  /** The `cookies` dictionary the loop builds, assigning each segment in order. */
  function Jar(cookies: seq<Option<Cookie>>): map<string, string>
    decreases |cookies|
  {
    if cookies == [] then map[]
    else
      var jar := Jar(cookies[..|cookies| - 1]);
      match cookies[|cookies| - 1]
      case None => jar
      case Some(c) => jar[c.name := c.value]
  }

  /**
   The dictionary holds exactly the names some segment defines, and each
   name's value is the one from the LAST segment that defines it.
   */
  lemma {:induction false} JarIsLastDefinition(cookies: seq<Option<Cookie>>, name: string)
    ensures name in Jar(cookies) <==> exists i :: DefinedAt(cookies, i, name)
    ensures name in Jar(cookies) ==> exists i ::
      LastDefinedAt(cookies, i, name) && Jar(cookies)[name] == cookies[i].value.value
    decreases |cookies|
  {
    if cookies != [] {
      var n := |cookies| - 1;
      var init := cookies[..n];
      JarIsLastDefinition(init, name);
      if DefinedAt(cookies, n, name) {
        assert LastDefinedAt(cookies, n, name);
      } else if name in Jar(init) {
        var i :| LastDefinedAt(init, i, name) && Jar(init)[name] == init[i].value.value;
        assert cookies[i] == init[i];
        assert DefinedAt(cookies, i, name);
        forall j | i < j < |cookies| ensures !DefinedAt(cookies, j, name) {
          if j < n {
            assert !DefinedAt(init, j, name);
            assert cookies[j] == init[j];
          }
        }
        assert LastDefinedAt(cookies, i, name);
      } else {
        forall i | DefinedAt(cookies, i, name) ensures false {
          assert DefinedAt(init, i, name);
        }
      }
    }
  }

  /** `cookies.get(name)` on the dictionary built from the parsed segments. */
  function Lookup(cookies: seq<Option<Cookie>>, name: string): (r: Option<string>)
    ensures r.None? <==> forall i :: 0 <= i < |cookies| ==> !DefinedAt(cookies, i, name)
    ensures r.Some? ==> exists i :: LastDefinedAt(cookies, i, name) && r.value == cookies[i].value.value
  {
    JarIsLastDefinition(cookies, name);
    var jar := Jar(cookies);
    if name in jar then Some(jar[name]) else None
  }

  /** The header's segments, each parsed. */
  function Segments(header: string): seq<Option<Cookie>> {
    ParseAll(Split(header, ';'))
  }

  /**
   `obter_usuario_id` given the Cookie header (an absent header reads as the
   empty one): the `usuario_id` entry of the dictionary, if any. What that
   entry is, in terms of the header's segments, is `UserIdIsLastDefinition`.
   */
  function UserId(header: string): Option<string> {
    Lookup(Segments(header), UserIdCookie)
  }

  /**
   `obter_usuario_id` returns `None` exactly when no segment defines
   `usuario_id`, and otherwise the value of the last segment that does.
   */
  lemma UserIdIsLastDefinition(header: string)
    ensures var cookies := Segments(header);
      UserId(header).None? <==> forall i :: 0 <= i < |cookies| ==> !DefinedAt(cookies, i, UserIdCookie)
    ensures var cookies := Segments(header);
      UserId(header).Some? ==> exists i ::
        LastDefinedAt(cookies, i, UserIdCookie) && UserId(header).value == cookies[i].value.value
  {
  }

  /** Appending one segment (that contains no `;`) appends its parse. */
  lemma SegmentsAppend(header: string, segment: string)
    requires ';' !in segment
    ensures Segments(header + ";" + segment) == Segments(header) + [ParseSegment(segment)]
  {
    SplitAppend(header, segment, ';');
    SplitWithoutSeparator(segment, ';');
    var a := Split(header, ';');
    var b := a + [segment];
    assert Split(header + ";" + segment, ';') == b;
    assert ParseAll(b) == ParseAll(a) + [ParseSegment(segment)] by {
      forall i | 0 <= i < |b| ensures ParseAll(b)[i] == (ParseAll(a) + [ParseSegment(segment)])[i] {
        if i < |a| { assert b[i] == a[i]; }
      }
    }
  }

  /** A segment that defines nothing leaves the dictionary as it was. */
  lemma JarIgnoresBare(cookies: seq<Option<Cookie>>)
    ensures Jar(cookies + [None]) == Jar(cookies)
  {
    var more := cookies + [None];
    assert more[..|more| - 1] == cookies;
  }

  /** A segment without `=` does not change the outcome. */
  lemma BareSegmentIgnored(header: string, segment: string)
    requires '=' !in segment && ';' !in segment
    ensures UserId(header + ";" + segment) == UserId(header)
  {
    SegmentsAppend(header, segment);
    assert ParseSegment(segment) == None;
    JarIgnoresBare(Segments(header));
  }

  /** Leading white space is removed by `lstrip()` whatever follows it. */
  lemma {:induction false} LStripSpacePrefix(ws: string, s: string)
    requires AllSpace(ws)
    ensures LStrip(ws + s) == LStrip(s)
    decreases |ws|
  {
    if |ws| > 0 {
      assert (ws + s)[0] == ws[0] && IsSpace(ws[0]);
      assert (ws + s)[1..] == ws[1..] + s;
      assert AllSpace(ws[1..]) by {
        forall k | 0 <= k < |ws[1..]| ensures IsSpace(ws[1..][k]) {
          assert ws[1..][k] == ws[k + 1];
        }
      }
      LStripSpacePrefix(ws[1..], s);
    } else {
      assert ws + s == s;
    }
  }

  /** `rstrip()` never reaches past a character that is not white space. */
  lemma {:induction false} RStripAfterNonSpace(a: string, b: string)
    requires |a| > 0 && !IsSpace(a[|a| - 1])
    ensures RStrip(a + b) == a + RStrip(b)
    decreases |b|
  {
    var s := a + b;
    if |b| == 0 {
      assert s == a;
    } else if IsSpace(b[|b| - 1]) {
      assert s[..|s| - 1] == a + b[..|b| - 1];
      RStripAfterNonSpace(a, b[..|b| - 1]);
    }
  }

  /**
   A `usuario_id=...` segment, after any leading white space (browsers send
   `"; "` between cookies), parses to that cookie. Only the first `=`
   splits, so the value may contain more of them; `strip()` does remove the
   value's trailing white space.
   */
  lemma ParseUserIdSegment(ws: string, value: string)
    requires AllSpace(ws)
    ensures ParseSegment(ws + (UserIdCookie + "=" + value)) == Some(Cookie(UserIdCookie, RStrip(value)))
  {
    var body := UserIdCookie + "=" + value;
    var segment := ws + body;
    assert segment[|ws| + 10] == '=';
    LStripSpacePrefix(ws, body);
    assert LStrip(body) == body;
    RStripAfterNonSpace(UserIdCookie + "=", value);
    var t := UserIdCookie + "=" + RStrip(value);
    assert Strip(segment) == t;
    var i := IndexOf(t, '=');
    assert t[..10] == UserIdCookie;
    assert i == 10;
  }

  /** The separator `;` can only enter a `usuario_id=...` segment through its value. */
  lemma UserIdSegmentUnsplit(ws: string, value: string)
    requires AllSpace(ws) && ';' !in value
    ensures ';' !in ws + (UserIdCookie + "=" + value)
  {
    var segment := ws + (UserIdCookie + "=" + value);
    forall k | 0 <= k < |segment| ensures segment[k] != ';' {
      if k < |ws| { assert segment[k] == ws[k] && IsSpace(ws[k]); }
      else if k >= |ws| + 11 { assert segment[k] == value[k - |ws| - 11]; }
    }
  }

  /**
   A `usuario_id` segment added at the end, after any white space, overrides
   any earlier one; the id found is its value up to trailing white space.
   */
  lemma LaterCookieOverrides(header: string, ws: string, value: string)
    requires AllSpace(ws) && ';' !in value
    ensures UserId(header + ";" + (ws + (UserIdCookie + "=" + value))) == Some(RStrip(value))
  {
    var segment := ws + (UserIdCookie + "=" + value);
    ParseUserIdSegment(ws, value);
    UserIdSegmentUnsplit(ws, value);
    SegmentsAppend(header, segment);
    var cookies := Segments(header);
    var more := cookies + [Some(Cookie(UserIdCookie, RStrip(value)))];
    assert more[..|more| - 1] == cookies;
    assert Jar(more)[UserIdCookie] == RStrip(value);
  }

  /** Without a Cookie header (read as the empty one) there is no id. */
  lemma NoHeaderNoId()
    ensures UserId("") == None
  {
  }
}
