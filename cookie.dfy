/**
 * `load_cookie`: reading a raw `Cookie:` header value into the session's
 * cookie jar. The value is split on `;`, each segment is stripped of
 * surrounding whitespace, and a segment holding `=` is split at its first `=`
 * into a name and a value, which is then stored in the jar (a later cookie of
 * the same name replaces an earlier one). Segments without `=` are ignored.
 */
module Cookies {
  import opened Options

  /** The characters Python's `str.strip()` removes (those for which `str.isspace()` holds). */
  predicate IsSpace(c: char)
  {
    || c == ' ' || '\t' <= c <= '\r' || '\U{1C}' <= c <= '\U{1F}'
    || c == '\U{85}' || c == '\U{A0}' || c == '\U{1680}' || '\U{2000}' <= c <= '\U{200A}'
    || c == '\U{2028}' || c == '\U{2029}' || c == '\U{202F}' || c == '\U{205F}' || c == '\U{3000}'
  }

  predicate AllSpace(s: string)
  {
    forall i :: 0 <= i < |s| ==> IsSpace(s[i])
  }

  /** `str.split(sep)`: the maximal pieces between separators; "" gives [""]. */
  function Split(s: string, sep: char): (parts: seq<string>)
    ensures |parts| >= 1
    ensures forall i :: 0 <= i < |parts| ==> sep !in parts[i]
    decreases |s|
  {
    if s == [] then [""]
    else
      var rest := Split(s[1..], sep);
      if s[0] == sep then [""] + rest
      else
        var parts := [[s[0]] + rest[0]] + rest[1..];
        assert forall i :: 1 <= i < |parts| ==> parts[i] == rest[i];
        parts
  }

  /** The inverse of Split: the pieces glued back with the separator. */
  function Join(parts: seq<string>, sep: char): string
    requires |parts| >= 1
    decreases |parts|
  {
    if |parts| == 1 then parts[0] else parts[0] + [sep] + Join(parts[1..], sep)
  }

  /** Split loses nothing: joining the pieces gives the input back. */
  lemma {:induction false} SplitJoin(s: string, sep: char)
    ensures Join(Split(s, sep), sep) == s
    decreases |s|
  {
    if s != [] {
      var rest := Split(s[1..], sep);
      SplitJoin(s[1..], sep);
      if s[0] == sep {
        assert Split(s, sep)[1..] == rest;
      } else {
        var parts := Split(s, sep);
        assert parts[1..] == rest[1..];
        if |rest| == 1 {
          assert Join(parts, sep) == [s[0]] + rest[0];
        } else {
          assert Join(rest, sep) == rest[0] + [sep] + Join(rest[1..], sep);
        }
      }
    }
  }

  /** `str.lstrip()`: drop leading whitespace. */
  function StripLeft(s: string): (r: string)
    ensures |r| <= |s|
    ensures r == [] || !IsSpace(r[0])
    decreases |s|
  {
    if s != [] && IsSpace(s[0]) then StripLeft(s[1..]) else s
  }

  /** `str.rstrip()`: drop trailing whitespace. */
  function StripRight(s: string): (r: string)
    ensures |r| <= |s|
    ensures r == [] || !IsSpace(r[|r| - 1])
    decreases |s|
  {
    if s != [] && IsSpace(s[|s| - 1]) then StripRight(s[..|s| - 1]) else s
  }

  /** `str.strip()`: drop whitespace at both ends. */
  function Strip(s: string): (r: string)
    ensures |r| <= |s|
    ensures r == [] || (!IsSpace(r[0]) && !IsSpace(r[|r| - 1]))
  {
    var l := StripLeft(s);
    StripRightSpec(l);
    StripRight(l)
  }

  /** `str.lstrip()` keeps a suffix and removes only whitespace. */
  lemma {:induction false} StripLeftSpec(s: string)
    ensures var r := StripLeft(s);
      r == s[|s| - |r|..] && AllSpace(s[..|s| - |r|])
    decreases |s|
  {
    if s != [] && IsSpace(s[0]) {
      StripLeftSpec(s[1..]);
      var r := StripLeft(s);
      assert s[..|s| - |r|] == [s[0]] + s[1..][..|s| - 1 - |r|];
    }
  }

  /** `str.rstrip()` keeps a prefix and removes only whitespace. */
  lemma {:induction false} StripRightSpec(s: string)
    ensures var r := StripRight(s);
      r == s[..|r|] && AllSpace(s[|r|..])
    decreases |s|
  {
    if s != [] && IsSpace(s[|s| - 1]) {
      var p := s[..|s| - 1];
      StripRightSpec(p);
      var r := StripRight(s);
      assert s[|r|..] == p[|r|..] + [s[|s| - 1]];
      assert r == p[..|r|] == s[..|r|];
    }
  }

  /**
   * `str.strip()` returns a contiguous middle part of `s`, and what it removed
   * at either end is all whitespace.
   */
  lemma StripSpec(s: string)
    ensures var r := Strip(s);
      exists i :: 0 <= i <= |s| - |r| && s[i..i + |r|] == r && AllSpace(s[..i]) && AllSpace(s[i + |r|..])
  {
    var l := StripLeft(s);
    var r := Strip(s);
    var i := |s| - |l|;
    assert l == s[i..] && AllSpace(s[..i]) by {
      StripLeftSpec(s);
    }
    assert r == l[..|r|] && AllSpace(l[|r|..]) by {
      StripRightSpec(l);
    }
    assert s[i..i + |r|] == r;
    assert s[i + |r|..] == l[|r|..];
  }

  /** The position of the first occurrence of `c`. */
  function FirstIndex(s: string, c: char): (i: nat)
    requires c in s
    ensures i < |s| && s[i] == c && c !in s[..i]
  {
    if s[0] == c then 0
    else
      assert c in s[1..] by {
        var j :| 0 <= j < |s| && s[j] == c;
        assert s[1..][j - 1] == c;
      }
      var j := FirstIndex(s[1..], c);
      assert s[..j + 1] == [s[0]] + s[1..][..j];
      j + 1
  }

  /**
   * One stripped segment: `cookie.split('=', 1)` when it holds `=`, nothing
   * otherwise.
   */
  function ParseSegment(segment: string): (p: Option<(string, string)>)
    ensures p.None? <==> '=' !in segment
    ensures p.Some? ==> '=' !in p.value.0 && p.value.0 + "=" + p.value.1 == segment
  {
    if '=' in segment then
      var i := FirstIndex(segment, '=');
      assert segment == segment[..i] + "=" + segment[i + 1..];
      Some((segment[..i], segment[i + 1..]))
    else None
  }

  /** The jar after one raw segment: stripped, parsed, and stored if it held `=`. */
  function StoreSegment(jar: map<string, string>, segment: string): (r: map<string, string>)
    ensures '=' !in Strip(segment) ==> r == jar
    ensures '=' in Strip(segment) ==> r.Keys == jar.Keys + {ParseSegment(Strip(segment)).value.0}
  {
    match ParseSegment(Strip(segment))
    case Some((name, value)) => jar[name := value]
    case None => jar
  }

  /** The jar after the segments, taken in order. */
  function StoreSegments(jar: map<string, string>, segments: seq<string>): (r: map<string, string>)
    ensures jar.Keys <= r.Keys
    ensures (forall i :: 0 <= i < |segments| ==> '=' !in Strip(segments[i])) ==> r == jar
    decreases |segments|
  {
    if segments == [] then jar
    else StoreSegment(StoreSegments(jar, segments[..|segments| - 1]), segments[|segments| - 1])
  }

  /** The raw segment sets the cookie `name`. */
  predicate Defines(segment: string, name: string)
  {
    var p := ParseSegment(Strip(segment));
    p.Some? && p.value.0 == name
  }

  /** The jar after one segment that does not define `name` agrees with the old jar on `name`. */
  lemma StoreOtherSegment(jar: map<string, string>, segment: string, name: string)
    requires !Defines(segment, name)
    ensures var r := StoreSegment(jar, segment);
      (name in r <==> name in jar) && (name in jar ==> r[name] == jar[name])
  {
  }

  /**
   * The jar after `load_cookie` holds a name exactly when it held it before or
   * some segment defines it.
   */
  lemma {:induction false} StoreSegmentsKeys(jar: map<string, string>, segments: seq<string>, name: string)
    ensures name in StoreSegments(jar, segments) <==>
      name in jar || exists i :: 0 <= i < |segments| && Defines(segments[i], name)
    decreases |segments|
  {
    if segments != [] {
      var n := |segments| - 1;
      var prefix := segments[..n];
      StoreSegmentsKeys(jar, prefix, name);
      if !Defines(segments[n], name) {
        StoreOtherSegment(StoreSegments(jar, prefix), segments[n], name);
      }
      assert forall i :: 0 <= i < n ==> segments[i] == prefix[i];
    }
  }

  /**
   * A later cookie of the same name replaces an earlier one: the value stored
   * for a name is that of the last segment defining it.
   */
  lemma {:induction false} StoreSegmentsLastWins(jar: map<string, string>, segments: seq<string>, name: string, i: nat)
    requires i < |segments| && Defines(segments[i], name)
    requires forall j :: i < j < |segments| ==> !Defines(segments[j], name)
    ensures var r := StoreSegments(jar, segments);
      name in r && r[name] == ParseSegment(Strip(segments[i])).value.1
    decreases |segments|
  {
    var n := |segments| - 1;
    var prefix := segments[..n];
    if i < n {
      assert forall j :: i < j < n ==> segments[j] == prefix[j];
      StoreSegmentsLastWins(jar, prefix, name, i);
      StoreOtherSegment(StoreSegments(jar, prefix), segments[n], name);
    }
  }

  /** A name no segment defines keeps the value it had before. */
  lemma {:induction false} StoreSegmentsKeepsOthers(jar: map<string, string>, segments: seq<string>, name: string)
    requires name in jar
    requires forall i :: 0 <= i < |segments| ==> !Defines(segments[i], name)
    ensures var r := StoreSegments(jar, segments);
      name in r && r[name] == jar[name]
    decreases |segments|
  {
    if segments != [] {
      var n := |segments| - 1;
      var prefix := segments[..n];
      assert forall i :: 0 <= i < n ==> segments[i] == prefix[i];
      StoreSegmentsKeepsOthers(jar, prefix, name);
      StoreOtherSegment(StoreSegments(jar, prefix), segments[n], name);
    }
  }

  /** The part of a `requests` session this model looks at: its cookie jar. */
  class Session {
    var cookies: map<string, string>

    constructor ()
      ensures cookies == map[]
    {
      cookies := map[];
    }
  }

  /** `load_cookie`: store every `name=value` segment of the raw header value into the session's jar. */
  method LoadCookie(session: Session, rawCookie: string)
    modifies session
    ensures session.cookies == StoreSegments(old(session.cookies), Split(rawCookie, ';'))
  {
    var segments := Split(rawCookie, ';');
    for k := 0 to |segments|
      invariant session.cookies == StoreSegments(old(session.cookies), segments[..k])
    {
      assert StoreSegments(old(session.cookies), segments[..k + 1])
          == StoreSegment(session.cookies, segments[k]) by {
        assert segments[..k + 1][..k] == segments[..k];
      }
      var cookie := Strip(segments[k]);
      if '=' in cookie {
        var i := FirstIndex(cookie, '=');
        var name, value := cookie[..i], cookie[i + 1..];
        session.cookies := session.cookies[name := value];
      }
    }
    assert segments[..|segments|] == segments;
  }
}
