/**
 * The pure text helpers of the raw-file form: normalising and validating
 * the submitted fields, the 200-character list preview and the public
 * lookup URL of a raw file (app.js).
 */
module Names {
  import opened Wrappers

  /** The code points `String.prototype.trim` strips: ECMAScript WhiteSpace
      (TAB, VT, FF, ZWNBSP and the space separators) and LineTerminator (LF,
      CR, LS, PS). Those at or below the space are TAB, LF, VT, FF, CR and
      the space; there are none from U+0021 to U+009F; the rest are listed
      in `WideBlanks`. */
  predicate IsTrimmable(c: char) {
    if c <= ' ' then c == ' ' || ('\t' <= c <= '\r')
    else if c < '\U{00A0}' then false
    else Occurs(c, WideBlanks)
  }

  const WideBlanks: seq<char> := [
    '\U{00A0}', '\U{1680}',
    '\U{2000}', '\U{2001}', '\U{2002}', '\U{2003}', '\U{2004}', '\U{2005}',
    '\U{2006}', '\U{2007}', '\U{2008}', '\U{2009}', '\U{200A}',
    '\U{2028}', '\U{2029}', '\U{202F}', '\U{205F}', '\U{3000}', '\U{FEFF}'
  ]

  /** `c` is one of `cs`. */
  predicate Occurs(c: char, cs: seq<char>) {
    cs != [] && (cs[0] == c || Occurs(c, cs[1..]))
  }

  /** No name character is trimmable. */
  lemma NameCharNotTrimmable(c: char)
    requires IsNameChar(c)
    ensures !IsTrimmable(c)
  {
  }

  /** Lower-casing leaves a string without upper-case ASCII letters alone. */
  lemma {:induction false} LowerKeeps(s: string)
    requires forall i :: 0 <= i < |s| ==> !IsAsciiUpper(s[i])
    ensures Lower(s) == s
  {
    if s != [] {
      LowerKeeps(s[1..]);
      assert s == [s[0]] + s[1..];
    }
  }

  /** Where the core of `s` starts, scanning forward from `lo`: the first
      index at or after `lo` holding a code point that is not trimmable. */
  function CoreStart(s: string, lo: nat): (a: nat)
    requires lo <= |s|
    ensures lo <= a <= |s|
    ensures forall i :: lo <= i < a ==> IsTrimmable(s[i])
    ensures a < |s| ==> !IsTrimmable(s[a])
    decreases |s| - lo
  {
    if lo < |s| && IsTrimmable(s[lo]) then CoreStart(s, lo + 1) else lo
  }

  /** Where the core of `s` ends, scanning backward from `hi` but not below
      `a`: one past the last index before `hi` holding a code point that is
      not trimmable. */
  function CoreEnd(s: string, a: nat, hi: nat): (b: nat)
    requires a <= hi <= |s|
    ensures a <= b <= hi
    ensures forall i :: b <= i < hi ==> IsTrimmable(s[i])
    ensures a < b ==> !IsTrimmable(s[b - 1])
    decreases hi
  {
    if a < hi && IsTrimmable(s[hi - 1]) then CoreEnd(s, a, hi - 1) else hi
  }

  /** `r` is the slice of `s` starting at `a` with only trimmable code points
      around it. */
  ghost predicate IsCoreSlice(s: string, r: string, a: int) {
    && 0 <= a && a + |r| <= |s|
    && r == s[a..a + |r|]
    && (forall i :: 0 <= i < a ==> IsTrimmable(s[i]))
    && (forall i :: a + |r| <= i < |s| ==> IsTrimmable(s[i]))
  }

  /** `s.trim()`: the longest slice of `s` that neither starts nor ends with a
      trimmable code point. */
  function Trim(s: string): (r: string)
    ensures exists a :: IsCoreSlice(s, r, a)
    ensures r != [] ==> !IsTrimmable(r[0]) && !IsTrimmable(r[|r| - 1])
    ensures r == [] <==> forall i :: 0 <= i < |s| ==> IsTrimmable(s[i])
  {
    var a := CoreStart(s, 0);
    var b := CoreEnd(s, a, |s|);
    assert IsCoreSlice(s, s[a..b], a);
    s[a..b]
  }

  predicate IsAsciiUpper(c: char) {
    'A' <= c <= 'Z'
  }

  /** One character of `toLowerCase`, restricted to ASCII: `A`-`Z` become
      `a`-`z`, every other character is kept. */
  function LowerChar(c: char): (d: char)
    ensures !IsAsciiUpper(d)
    ensures !IsAsciiUpper(c) ==> d == c
    ensures IsNameChar(d) <==> IsNameChar(c) || IsAsciiUpper(c)
  {
    if IsAsciiUpper(c) then (c as int - 'A' as int + 'a' as int) as char else c
  }

  function Lower(s: string): (r: string)
    ensures |r| == |s|
    ensures forall i :: 0 <= i < |s| ==> r[i] == LowerChar(s[i])
  {
    if s == [] then [] else [LowerChar(s[0])] + Lower(s[1..])
  }

  /** A character the name pattern `[a-z0-9-]` admits. */
  predicate IsNameChar(c: char) {
    ('a' <= c <= 'z') || ('0' <= c <= '9') || c == '-'
  }

  /** The test `/^[a-z0-9-]+$/`: one or more name characters and nothing else. */
  predicate MatchesNamePattern(s: string): (b: bool)
    ensures b ==> s != [] && forall i :: 0 <= i < |s| ==> !IsTrimmable(s[i]) && !IsAsciiUpper(s[i])
  {
    |s| > 0 && forall i :: 0 <= i < |s| ==> IsNameChar(s[i])
  }

  /** The submitted name: trimmed, then lower-cased. */
  function NormalizeName(raw: string): (name: string)
    ensures |name| <= |raw|
    ensures forall i :: 0 <= i < |name| ==> !IsAsciiUpper(name[i])
  {
    Lower(Trim(raw))
  }

  /** The normalised name is empty exactly for a blank input, holds no
      upper-case ASCII letter and is never longer than the input. */
  lemma NormalizeNameShape(raw: string)
    ensures |NormalizeName(raw)| <= |raw|
    ensures NormalizeName(raw) == [] <==> forall i :: 0 <= i < |raw| ==> IsTrimmable(raw[i])
    ensures forall i :: 0 <= i < |NormalizeName(raw)| ==> !IsAsciiUpper(NormalizeName(raw)[i])
  {
    var t := Trim(raw);
    assert exists a :: IsCoreSlice(raw, t, a);
  }

  /** For example, the blanks around ` Ab\n` are stripped and its capital
      lowered. */
  lemma NormalizeExample()
    ensures NormalizeName(" Ab\n") == "ab"
  {
    var raw := " Ab\n";
    assert CoreStart(raw, 0) == 1 by {
      assert CoreStart(raw, 1) == 1;
    }
    assert CoreEnd(raw, 1, 4) == 3 by {
      assert CoreEnd(raw, 1, 3) == 3;
    }
    assert Trim(raw) == "Ab";
  }

  datatype FormError =
    | MissingField   // "Please fill in all fields"
    | InvalidName    // "Name can only contain lowercase letters, numbers, and hyphens"

  datatype Fields = Fields(name: string, version: string, content: string)

  /** The checks the submit handler makes before touching the store: the
      normalised name, the trimmed version and the untouched content must be
      non-empty, then the name must match the pattern. */
  function ValidateForm(rawName: string, rawVersion: string, content: string): (r: Result<Fields, FormError>)
    ensures r.Success? ==>
      && MatchesNamePattern(r.value.name)
      && r.value.version != [] && r.value.content != []
      && r.value.content == content
    ensures r.Success? ==> r.value == Fields(NormalizeName(rawName), Trim(rawVersion), content)
    ensures r == Failure(MissingField) ==> NormalizeName(rawName) == [] || Trim(rawVersion) == [] || content == []
  {
    var name := NormalizeName(rawName);
    var version := Trim(rawVersion);
    if name == [] || version == [] || content == [] then Failure(MissingField)
    else if !MatchesNamePattern(name) then Failure(InvalidName)
    else Success(Fields(name, version, content))
  }

  /** Which raw names the form accepts, stated on the raw input: after
      trimming, something is left and every character is a name character or
      an upper-case ASCII letter (which lower-casing turns into one). */
  lemma {:induction false} NameAcceptance(rawName: string)
    ensures MatchesNamePattern(NormalizeName(rawName)) <==>
      var t := Trim(rawName);
      t != [] && forall i :: 0 <= i < |t| ==> IsNameChar(t[i]) || IsAsciiUpper(t[i])
  {
    var t := Trim(rawName);
    var n := NormalizeName(rawName);
    assert n == Lower(t);
    if MatchesNamePattern(n) {
      forall i | 0 <= i < |t| ensures IsNameChar(t[i]) || IsAsciiUpper(t[i]) {
        assert IsNameChar(LowerChar(t[i]));
      }
    }
  }

  /** A stored name normalises to itself, so re-submitting the form that
      editing pre-fills with it keeps the name. */
  lemma {:induction false} NormalizeValidName(name: string)
    requires MatchesNamePattern(name)
    ensures NormalizeName(name) == name
  {
    NameCharNotTrimmable(name[0]);
    NameCharNotTrimmable(name[|name| - 1]);
    TrimKeeps(name);
    LowerKeeps(name);
  }

  /** Trimming leaves alone a string that neither starts nor ends with a
      trimmable code point. */
  lemma TrimKeeps(s: string)
    requires s != [] && !IsTrimmable(s[0]) && !IsTrimmable(s[|s| - 1])
    ensures Trim(s) == s
  {
    assert CoreStart(s, 0) == 0;
    assert CoreEnd(s, 0, |s|) == |s|;
    assert s[0..|s|] == s;
  }

  /** A form whose name already matches the pattern, whose version is
      non-empty and already trimmed and whose content is present is accepted
      unchanged. */
  lemma {:induction false} ValidateCleanForm(name: string, version: string, content: string)
    requires MatchesNamePattern(name)
    requires version != [] && Trim(version) == version
    requires content != []
    ensures ValidateForm(name, version, content) == Success(Fields(name, version, content))
  {
    var n, v := NormalizeName(name), Trim(version);
    assert n == name by { NormalizeValidName(name); }
    assert v == version;
    assert MatchesNamePattern(n);
    assert !(n == [] || v == [] || content == []);
  }

  /** A submit is refused for a missing field exactly when the name or the
      version is blank (only trimmable code points) or the content is empty;
      content made of blanks is not missing. */
  lemma MissingFieldIff(rawName: string, rawVersion: string, content: string)
    ensures ValidateForm(rawName, rawVersion, content) == Failure(MissingField) <==>
      || (forall i :: 0 <= i < |rawName| ==> IsTrimmable(rawName[i]))
      || (forall i :: 0 <= i < |rawVersion| ==> IsTrimmable(rawVersion[i]))
      || content == []
  {
    assert NormalizeName(rawName) == [] <==> forall i :: 0 <= i < |rawName| ==> IsTrimmable(rawName[i]);
    assert Trim(rawVersion) == [] <==> forall i :: 0 <= i < |rawVersion| ==> IsTrimmable(rawVersion[i]);
  }

  /** A name is rejected for its characters exactly when every field is
      present and the trimmed raw name holds a character that is neither a
      name character nor an upper-case ASCII letter: inner spaces and
      symbols are refused, surrounding blanks and capitals are not. */
  lemma InvalidNameIff(rawName: string, rawVersion: string, content: string)
    ensures ValidateForm(rawName, rawVersion, content) == Failure(InvalidName) <==>
      && Trim(rawName) != [] && Trim(rawVersion) != [] && content != []
      && exists i :: 0 <= i < |Trim(rawName)| && !IsNameChar(Trim(rawName)[i]) && !IsAsciiUpper(Trim(rawName)[i])
  {
    NameAcceptance(rawName);
  }

  const PreviewLength := 200
  const Ellipsis := "..."

  /** The list card's preview: the content itself up to 200 characters,
      otherwise its first 200 characters followed by an ellipsis. */
  function Preview(content: string): (r: string)
    ensures |r| <= PreviewLength + |Ellipsis|
    ensures |content| <= PreviewLength ==> r == content
    ensures |content| > PreviewLength ==> content[..PreviewLength] <= r && r[PreviewLength..] == Ellipsis
  {
    if |content| > PreviewLength then content[..PreviewLength] + Ellipsis else content
  }

  const RawPagePath := "/raw.html?name="

  /** The public lookup URL shown for a raw file in the view pane. */
  function PublicUrl(origin: string, name: string): (url: string)
    ensures origin <= url
    ensures |url| == |origin| + |RawPagePath| + |name|
  {
    origin + RawPagePath + name
  }

  /** What the public page reads back out of a URL of this origin. */
  function NameFromUrl(origin: string, url: string): Option<string> {
    var k := |origin| + |RawPagePath|;
    if k <= |url| && url[..k] == origin + RawPagePath then Some(url[k..]) else None
  }

  lemma PublicUrlRoundTrip(origin: string, name: string)
    ensures NameFromUrl(origin, PublicUrl(origin, name)) == Some(name)
  {
    var url := PublicUrl(origin, name);
    var k := |origin| + |RawPagePath|;
    assert url[..k] == origin + RawPagePath;
    assert url[k..] == name;
  }

  /** Two names give the same URL of one origin only if they are equal. */
  lemma PublicUrlInjective(origin: string, a: string, b: string)
    requires PublicUrl(origin, a) == PublicUrl(origin, b)
    ensures a == b
  {
    PublicUrlRoundTrip(origin, a);
    PublicUrlRoundTrip(origin, b);
  }
}
