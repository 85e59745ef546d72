/**
 * The cookie tracker of `CorrelationProxyControl`: the last known cookie jar
 * (a `LinkedHashSet` of comparable cookies, kept here as a sequence in
 * iteration order), the parser of the request `Cookie` header that finds the
 * cookies not seen before, and the parser of `Set-Cookie` response lines that
 * feeds the jar. Its entry point, `addMissingCookiesChildren`, is private
 * and has no caller in this version of the source.
 *
 * `ComparableCookie.equals` is not part of this model: set membership is a
 * parameter `eq`. The only thing the properties below ask of it is that equal
 * cookies have the same name and domain (`EqualityRespectsIdentity`).
 */
module CookieTracker {
  import opened Wrappers
  import opened JavaStrings
  import opened Sequences

  datatype Cookie = Cookie(name: string, value: string, domain: string)

  /** The `StringIndexOutOfBoundsException` a `substring` with a missing separator throws. */
  datatype Thrown = StringIndexOutOfBounds

  /** The identity `addCookie` uses: name and domain, ignoring the value. */
  predicate SameIdentity(a: Cookie, b: Cookie) {
    a.name == b.name && a.domain == b.domain
  }

  /** At most one tracked cookie per (name, domain). */
  predicate UniqueIdentities(cs: seq<Cookie>) {
    forall i, j :: 0 <= i < j < |cs| ==> !SameIdentity(cs[i], cs[j])
  }

  ghost predicate EqualityRespectsIdentity(eq: (Cookie, Cookie) -> bool) {
    forall a, b :: eq(a, b) ==> SameIdentity(a, b)
  }

  /** `set.contains(c)` for a set whose equality is `eq`. */
  predicate Contains(eq: (Cookie, Cookie) -> bool, s: seq<Cookie>, c: Cookie) {
    exists t :: t in s && eq(c, t)
  }

  /** The `name=value` text a request cookie is written as. */
  function Render(c: Cookie): string {
    c.name + "=" + c.value
  }

  /* ---------------- request side: `extractNewRequestCookies` ---------------- */

  /**
   * One `"; "`-separated piece of a `Cookie` header: the name is the text
   * before the first `=`, the value the text after it. A piece without `=`
   * makes `substring(0, -1)` throw.
   */
  function ParseRequestCookie(piece: string, host: string): (r: Result<Cookie, Thrown>)
    ensures r.Failure? <==> '=' !in piece
    ensures r.Success? ==> Render(r.value) == piece && '=' !in r.value.name && r.value.domain == host
  {
    var pos := IndexOfChar(piece, '=', 0);
    if pos < 0 then Failure(StringIndexOutOfBounds)
    else
      var name, value := piece[..pos], piece[pos + 1..];
      assert piece == name + "=" + value;
      assert forall i :: 0 <= i < |name| ==> name[i] == piece[i];
      Success(Cookie(name, value, host))
  }

  /** Every piece parsed, in order; the first piece without `=` aborts the whole list. */
  function ParseRequestCookies(pieces: seq<string>, host: string): (r: Result<seq<Cookie>, Thrown>)
    ensures r.Failure? <==> exists i :: 0 <= i < |pieces| && '=' !in pieces[i]
    ensures r.Success? ==> |r.value| == |pieces|
    ensures r.Success? ==>
              forall i :: 0 <= i < |pieces| ==> ParseRequestCookie(pieces[i], host) == Success(r.value[i])
  {
    if |pieces| == 0 then Success([])
    else
      var first := ParseRequestCookie(pieces[0], host);
      var rest := ParseRequestCookies(pieces[1..], host);
      assert forall i :: 1 <= i < |pieces| ==> pieces[i] == pieces[1..][i - 1];
      if first.Failure? then Failure(first.error)
      else if rest.Failure? then Failure(rest.error)
      else Success([first.value] + rest.value)
  }

  /** The cookies of `cs` that the tracked set does not contain, in order. */
  function Untracked(eq: (Cookie, Cookie) -> bool, tracked: seq<Cookie>, cs: seq<Cookie>): (r: seq<Cookie>)
    ensures forall c :: c in r <==> c in cs && !Contains(eq, tracked, c)
  {
    if |cs| == 0 then []
    else if Contains(eq, tracked, cs[0]) then Untracked(eq, tracked, cs[1..])
    else [cs[0]] + Untracked(eq, tracked, cs[1..])
  }

  /** The untracked cookies keep their order in the header. */
  lemma {:induction false} UntrackedSubseq(eq: (Cookie, Cookie) -> bool, tracked: seq<Cookie>, cs: seq<Cookie>)
    ensures IsSubseq(Untracked(eq, tracked, cs), cs)
    decreases |cs|
  {
    if |cs| == 0 {
      SubseqRefl(cs);
    } else {
      var rest := Untracked(eq, tracked, cs[1..]);
      UntrackedSubseq(eq, tracked, cs[1..]);
      SubseqConsRight(rest, cs[1..], cs[0]);
      if !Contains(eq, tracked, cs[0]) {
        SubseqCons(rest, cs[1..], cs[0]);
      }
      assert [cs[0]] + cs[1..] == cs;
    }
  }

  /** The cookies the pieces of a header parse to. */
  ghost predicate ParsedFrom(pieces: seq<string>, host: string, c: Cookie) {
    exists p :: p in pieces && ParseRequestCookie(p, host) == Success(c)
  }

  /**
   * `extractNewRequestCookies`: a null or blank header gives no cookie;
   * otherwise the header is split on `"; "`, every piece is parsed, and the
   * cookies the tracked set already contains are dropped.
   */
  function ExtractNewRequestCookies(
    eq: (Cookie, Cookie) -> bool, tracked: seq<Cookie>, header: Option<string>, host: string
  ): (r: Result<seq<Cookie>, Thrown>)
    ensures header.None? || IsBlank(header.value) ==> r == Success([])
    ensures header.Some? && !IsBlank(header.value) ==>
              (r.Failure? <==> exists p :: p in Split(header.value, "; ") && '=' !in p)
    ensures r.Success? && header.Some? && !IsBlank(header.value) ==>
              forall c :: c in r.value <==>
                ParsedFrom(Split(header.value, "; "), host, c) && !Contains(eq, tracked, c)
  {
    if header.None? || IsBlank(header.value) then Success([])
    else
      var pieces := Split(header.value, "; ");
      var parsed := ParseRequestCookies(pieces, host);
      if parsed.Failure? then Failure(parsed.error)
      else
        ParsedMembers(pieces, host, parsed.value);
        Success(Untracked(eq, tracked, parsed.value))
  }

  /** The parsed list holds exactly the cookies the pieces parse to. */
  lemma ParsedMembers(pieces: seq<string>, host: string, cs: seq<Cookie>)
    requires ParseRequestCookies(pieces, host) == Success(cs)
    ensures forall c :: c in cs <==> ParsedFrom(pieces, host, c)
  {
    forall c
      ensures c in cs <==> ParsedFrom(pieces, host, c)
    {
      if c in cs {
        ParsedMemberOf(pieces, host, cs, c);
      }
      if ParsedFrom(pieces, host, c) {
        MemberOfParsed(pieces, host, cs, c);
      }
    }
  }

  lemma ParsedMemberOf(pieces: seq<string>, host: string, cs: seq<Cookie>, c: Cookie)
    requires ParseRequestCookies(pieces, host) == Success(cs)
    requires c in cs
    ensures ParsedFrom(pieces, host, c)
  {
    var i :| 0 <= i < |cs| && cs[i] == c;
    assert pieces[i] in pieces && ParseRequestCookie(pieces[i], host) == Success(c);
  }

  lemma MemberOfParsed(pieces: seq<string>, host: string, cs: seq<Cookie>, c: Cookie)
    requires ParseRequestCookies(pieces, host) == Success(cs)
    requires ParsedFrom(pieces, host, c)
    ensures c in cs
  {
    var p :| p in pieces && ParseRequestCookie(p, host) == Success(c);
    var i :| 0 <= i < |pieces| && pieces[i] == p;
    assert cs[i] == c;
  }

  /**
   * Writing the parsed cookies back as `name=value` joined by `"; "` gives the
   * header back, when splitting it dropped no trailing empty piece.
   */
  lemma RequestCookiesRoundTrip(header: string, host: string)
    requires Split(header, "; ") == Pieces(header, "; ")
    requires ParseRequestCookies(Split(header, "; "), host).Success?
    ensures var cs := ParseRequestCookies(Split(header, "; "), host).value;
      Join(seq(|cs|, i requires 0 <= i < |cs| => Render(cs[i])), "; ") == header
  {
    var pieces := Split(header, "; ");
    var cs := ParseRequestCookies(pieces, host).value;
    assert seq(|cs|, i requires 0 <= i < |cs| => Render(cs[i])) == pieces;
    JoinPieces(header, "; ");
  }

  /* ---------------- the jar: `addCookie` ---------------- */

  /** The set without the first cookie of `c`'s identity (the `findAny` + `remove`). */
  function RemoveIdentity(s: seq<Cookie>, c: Cookie): (r: seq<Cookie>)
    ensures |r| <= |s|
    ensures forall t :: t in r ==> t in s
  {
    if |s| == 0 then []
    else if SameIdentity(s[0], c) then s[1..]
    else [s[0]] + RemoveIdentity(s[1..], c)
  }

  /** The cookies of another identity than `c`'s, in order (reference definition). */
  function OtherIdentities(s: seq<Cookie>, c: Cookie): (r: seq<Cookie>)
  {
    if |s| == 0 then []
    else if SameIdentity(s[0], c) then OtherIdentities(s[1..], c)
    else [s[0]] + OtherIdentities(s[1..], c)
  }

  /**
   * `addCookie(c)`: remove the tracked cookie with `c`'s name and domain, if
   * any, then add `c` to the set (a no-op when the set already contains an
   * element equal to it).
   */
  function AddCookie(eq: (Cookie, Cookie) -> bool, tracked: seq<Cookie>, c: Cookie): (r: seq<Cookie>)
    ensures forall t :: t in r ==> t in tracked || t == c
    ensures EqualityRespectsIdentity(eq) && UniqueIdentities(tracked) ==>
              && UniqueIdentities(r)
              && c in r
              && (forall t :: t in r && SameIdentity(t, c) ==> t == c)
              && OtherIdentities(r, c) == OtherIdentities(tracked, c)
  {
    var rest := RemoveIdentity(tracked, c);
    var r := if Contains(eq, rest, c) then rest else rest + [c];
    AddCookieIdentities(eq, tracked, c, rest);
    r
  }

  lemma AddCookieIdentities(eq: (Cookie, Cookie) -> bool, tracked: seq<Cookie>, c: Cookie, rest: seq<Cookie>)
    requires rest == RemoveIdentity(tracked, c)
    ensures EqualityRespectsIdentity(eq) && UniqueIdentities(tracked) ==>
              && !Contains(eq, rest, c)
              && UniqueIdentities(rest + [c])
              && (forall t :: t in rest + [c] && SameIdentity(t, c) ==> t == c)
              && OtherIdentities(rest + [c], c) == OtherIdentities(tracked, c)
  {
    if EqualityRespectsIdentity(eq) && UniqueIdentities(tracked) {
      RemoveIdentitySpec(tracked, c);
      OtherIdentitiesAppend(rest, c);
    }
  }

  /** Under unique identities, removing `c`'s identity leaves none of it and keeps the others. */
  lemma {:induction false} RemoveIdentitySpec(s: seq<Cookie>, c: Cookie)
    requires UniqueIdentities(s)
    ensures UniqueIdentities(RemoveIdentity(s, c))
    ensures forall t :: t in RemoveIdentity(s, c) ==> !SameIdentity(t, c)
    ensures OtherIdentities(RemoveIdentity(s, c), c) == OtherIdentities(s, c)
    decreases |s|
  {
    if |s| > 0 {
      var tail := s[1..];
      assert UniqueIdentities(tail);
      if SameIdentity(s[0], c) {
        forall t | t in tail
          ensures !SameIdentity(t, c)
        {
          var j :| 0 <= j < |tail| && tail[j] == t;
          assert !SameIdentity(s[0], s[j + 1]);
        }
        OtherIdentitiesNone(tail, c);
      } else {
        RemoveIdentitySpec(tail, c);
        var r := RemoveIdentity(s, c);
        assert r == [s[0]] + RemoveIdentity(tail, c);
        forall i, j | 0 <= i < j < |r|
          ensures !SameIdentity(r[i], r[j])
        {
          if i == 0 {
            assert r[j] in tail;
            var k :| 0 <= k < |tail| && tail[k] == r[j];
            assert !SameIdentity(s[0], s[k + 1]);
          } else {
            assert r[i] == RemoveIdentity(tail, c)[i - 1];
            assert r[j] == RemoveIdentity(tail, c)[j - 1];
          }
        }
      }
    }
  }

  lemma {:induction false} OtherIdentitiesNone(s: seq<Cookie>, c: Cookie)
    requires forall t :: t in s ==> !SameIdentity(t, c)
    ensures OtherIdentities(s, c) == s
    decreases |s|
  {
    if |s| > 0 {
      OtherIdentitiesNone(s[1..], c);
    }
  }

  lemma {:induction false} OtherIdentitiesAppend(s: seq<Cookie>, c: Cookie)
    ensures OtherIdentities(s + [c], c) == OtherIdentities(s, c)
    decreases |s|
  {
    if |s| > 0 {
      assert (s + [c])[1..] == s[1..] + [c];
      OtherIdentitiesAppend(s[1..], c);
    } else {
      assert OtherIdentities([c], c) == OtherIdentities([c][1..], c);
    }
  }

  /* ---------------- response side: `addResponseHeaders` ---------------- */

  const SetCookieHeader: string := "set-cookie"

  /** Where a `Set-Cookie` name starts: after the first `:`, or at 0 when there is none. */
  function NameStart(line: string): (start: nat)
    ensures start <= |line|
    ensures start == 0 <==> ':' !in line
    ensures start > 0 ==> line[start - 1] == ':' && ':' !in line[..start - 1]
  {
    var colon := IndexOfChar(line, ':', 0);
    assert colon >= 0 ==> forall i :: 0 <= i < colon ==> line[..colon][i] == line[i];
    colon + 1
  }

  /**
   * One `Set-Cookie` line: the name lies between `NameStart` and the next
   * `=`, trimmed; the value runs from there to the next `;`. A missing `=` or
   * `;` makes `substring` throw.
   */
  function ParseSetCookie(line: string, host: string): (r: Result<Cookie, Thrown>)
    ensures r.Success? ==>
              && ';' !in r.value.value
              && '=' !in r.value.name
              && Trimmed(r.value.name)
              && r.value.domain == host
    ensures (forall i :: NameStart(line) <= i < |line| ==> line[i] != '=') ==> r.Failure?
    ensures r.Failure? <==>
              || IndexOfChar(line, '=', NameStart(line)) < 0
              || IndexOfChar(line, ';', IndexOfChar(line, '=', NameStart(line)) + 1) < 0
  {
    var start := NameStart(line);
    var nameEnd := IndexOfChar(line, '=', start);
    if nameEnd < 0 then Failure(StringIndexOutOfBounds)
    else
      var valueEnd := IndexOfChar(line, ';', nameEnd + 1);
      if valueEnd < 0 then Failure(StringIndexOutOfBounds)
      else
        FieldsAvoidSeparators(line, start, nameEnd, valueEnd);
        Success(CutCookie(line, host, start, nameEnd, valueEnd))
  }

  /** The cookie whose trimmed name lies in `line[start..nameEnd]` and whose value follows the `=` up to `valueEnd`. */
  function CutCookie(line: string, host: string, start: nat, nameEnd: nat, valueEnd: nat): Cookie
    requires start <= nameEnd < valueEnd <= |line|
  {
    Cookie(Trim(line[start..nameEnd]), line[nameEnd + 1..valueEnd], host)
  }

  /** The fields a `Set-Cookie` parser cuts out avoid their separators. */
  lemma FieldsAvoidSeparators(line: string, start: nat, nameEnd: nat, valueEnd: nat)
    requires start <= nameEnd < valueEnd <= |line|
    requires forall i :: start <= i < nameEnd ==> line[i] != '='
    requires forall i :: nameEnd < i < valueEnd ==> line[i] != ';'
    ensures '=' !in Trim(line[start..nameEnd])
    ensures ';' !in line[nameEnd + 1..valueEnd]
  {
    var raw := line[start..nameEnd];
    var value := line[nameEnd + 1..valueEnd];
    assert forall i :: 0 <= i < |raw| ==> raw[i] == line[start + i];
    assert forall i :: 0 <= i < |value| ==> value[i] == line[nameEnd + 1 + i];
  }

  /** `indexOf(c, from)` finds the first occurrence at or after `from`. */
  lemma FirstAt(s: string, c: char, from: nat, k: nat)
    requires from <= k < |s| && s[k] == c
    requires forall i :: from <= i < k ==> s[i] != c
    ensures IndexOfChar(s, c, from) == k
  {
  }

  lemma MiddleSlice(a: string, b: string, c: string)
    ensures (a + b + c)[|a|..|a| + |b|] == b
  {
  }

  /** The positions of the separators in a well-formed `Set-Cookie` line, and the fields between them. */
  lemma SetCookieLayout(header: string, name: string, value: string, attributes: string)
    requires ':' !in header && '=' !in name && ';' !in value
    ensures var line := header + ": " + name + "=" + value + ";" + attributes;
      var colon, eqPos := |header|, |header| + 2 + |name|;
      var semi := eqPos + 1 + |value|;
      && semi < |line|
      && line[colon] == ':' && line[eqPos] == '=' && line[semi] == ';'
      && (forall i :: 0 <= i < colon ==> line[i] != ':')
      && (forall i :: colon < i < eqPos ==> line[i] != '=')
      && (forall i :: eqPos < i < semi ==> line[i] != ';')
      && line[colon + 1..eqPos] == " " + name
      && line[eqPos + 1..semi] == value
  {
    SetCookieSeparators(header, name, value, attributes);
    SetCookieFields(header, name, value, attributes);
  }

  lemma SetCookieSeparators(header: string, name: string, value: string, attributes: string)
    requires ':' !in header && '=' !in name && ';' !in value
    ensures var line := header + ": " + name + "=" + value + ";" + attributes;
      var colon, eqPos := |header|, |header| + 2 + |name|;
      var semi := eqPos + 1 + |value|;
      && semi < |line|
      && line[colon] == ':' && line[eqPos] == '=' && line[semi] == ';'
      && (forall i :: 0 <= i < colon ==> line[i] != ':')
      && (forall i :: colon < i < eqPos ==> line[i] != '=')
      && (forall i :: eqPos < i < semi ==> line[i] != ';')
  {
    var line := header + ": " + name + "=" + value + ";" + attributes;
    var eqPos := |header| + 2 + |name|;
    var semi := eqPos + 1 + |value|;
    assert forall i :: 0 <= i < |header| ==> line[i] == header[i];
    assert forall i :: |header| + 2 <= i < eqPos ==> line[i] == name[i - |header| - 2];
    assert forall i :: eqPos < i < semi ==> line[i] == value[i - eqPos - 1];
  }

  lemma SetCookieFields(header: string, name: string, value: string, attributes: string)
    ensures var line := header + ": " + name + "=" + value + ";" + attributes;
      var colon, eqPos := |header|, |header| + 2 + |name|;
      var semi := eqPos + 1 + |value|;
      && line[colon + 1..eqPos] == " " + name
      && line[eqPos + 1..semi] == value
  {
    var line := header + ": " + name + "=" + value + ";" + attributes;
    assert line == header + ":" + (" " + name) + ("=" + value + ";" + attributes);
    MiddleSlice(header + ":", " " + name, "=" + value + ";" + attributes);
    assert line == (header + ": " + name + "=") + value + (";" + attributes);
    MiddleSlice(header + ": " + name + "=", value, ";" + attributes);
  }

  /** The positions of the separators in a `Set-Cookie` line without attributes. */
  lemma BareSetCookieLayout(header: string, name: string, value: string)
    requires ':' !in header && '=' !in name && ';' !in value
    ensures var line := header + ": " + name + "=" + value;
      var colon, eqPos := |header|, |header| + 2 + |name|;
      && eqPos < |line| == eqPos + 1 + |value|
      && line[colon] == ':' && line[eqPos] == '='
      && (forall i :: 0 <= i < colon ==> line[i] != ':')
      && (forall i :: colon < i < eqPos ==> line[i] != '=')
      && (forall i :: eqPos < i < |line| ==> line[i] != ';')
      && line[colon + 1..eqPos] == " " + name
      && line[eqPos + 1..|line|] == value
  {
    BareSeparators(header, name, value);
    BareFields(header, name, value);
  }

  lemma BareSeparators(header: string, name: string, value: string)
    requires ':' !in header && '=' !in name && ';' !in value
    ensures var line := header + ": " + name + "=" + value;
      var colon, eqPos := |header|, |header| + 2 + |name|;
      && eqPos < |line| == eqPos + 1 + |value|
      && line[colon] == ':' && line[eqPos] == '='
      && (forall i :: 0 <= i < colon ==> line[i] != ':')
      && (forall i :: colon < i < eqPos ==> line[i] != '=')
      && (forall i :: eqPos < i < |line| ==> line[i] != ';')
  {
    var line := header + ": " + name + "=" + value;
    var eqPos := |header| + 2 + |name|;
    assert forall i :: 0 <= i < |header| ==> line[i] == header[i];
    assert forall i :: |header| + 2 <= i < eqPos ==> line[i] == name[i - |header| - 2];
    assert forall i :: eqPos < i < |line| ==> line[i] == value[i - eqPos - 1];
  }

  lemma BareFields(header: string, name: string, value: string)
    ensures var line := header + ": " + name + "=" + value;
      var colon, eqPos := |header|, |header| + 2 + |name|;
      && line[colon + 1..eqPos] == " " + name
      && line[eqPos + 1..|line|] == value
  {
    var line := header + ": " + name + "=" + value;
    assert line == header + ":" + (" " + name) + ("=" + value);
    MiddleSlice(header + ":", " " + name, "=" + value);
    assert line == (header + ": " + name + "=") + value + "";
    MiddleSlice(header + ": " + name + "=", value, "");
  }

  /**
   * A well-formed line parses back to its cookie: a header name without `:`,
   * then a cookie name without `=` and without surrounding white space, a
   * value without `;`, and any attributes.
   */
  lemma SetCookieRoundTrip(header: string, name: string, value: string, attributes: string, host: string)
    requires ':' !in header
    requires '=' !in name && Trimmed(name)
    requires ';' !in value
    ensures ParseSetCookie(header + ": " + name + "=" + value + ";" + attributes, host) ==
            Success(Cookie(name, value, host))
  {
    SetCookieLayout(header, name, value, attributes);
    ParseAtPositions(header + ": " + name + "=" + value + ";" + attributes, host,
                     |header|, |header| + 2 + |name|, |header| + 3 + |name| + |value|, name, value);
  }

  /** `ParseSetCookie` on a line whose separators sit at known positions. */
  lemma ParseAtPositions(line: string, host: string, colon: nat, eqPos: nat, semi: nat, name: string, value: string)
    requires colon < eqPos < semi < |line|
    requires line[colon] == ':' && line[eqPos] == '=' && line[semi] == ';'
    requires forall i :: 0 <= i < colon ==> line[i] != ':'
    requires forall i :: colon < i < eqPos ==> line[i] != '='
    requires forall i :: eqPos < i < semi ==> line[i] != ';'
    requires line[colon + 1..eqPos] == " " + name && Trimmed(name)
    requires line[eqPos + 1..semi] == value
    ensures ParseSetCookie(line, host) == Success(Cookie(name, value, host))
  {
    LocateName(line, colon, eqPos);
    FirstAt(line, ';', eqPos + 1, semi);
    ParseSetCookieAt(line, host, colon + 1, eqPos, semi);
    CutCookieAt(line, host, colon, eqPos, semi, name, value);
  }

  /** The name of a `Set-Cookie` line starts after its first `:` and ends at the next `=`. */
  lemma LocateName(line: string, colon: nat, eqPos: nat)
    requires colon < eqPos < |line|
    requires line[colon] == ':' && line[eqPos] == '='
    requires forall i :: 0 <= i < colon ==> line[i] != ':'
    requires forall i :: colon < i < eqPos ==> line[i] != '='
    ensures NameStart(line) == colon + 1
    ensures IndexOfChar(line, '=', colon + 1) == eqPos
  {
    FirstAt(line, ':', 0, colon);
    FirstAt(line, '=', colon + 1, eqPos);
  }

  /** The fields after `: ` and `=` are the cookie's name and value. */
  lemma CutCookieAt(line: string, host: string, colon: nat, eqPos: nat, valueEnd: nat, name: string, value: string)
    requires colon < eqPos < valueEnd <= |line|
    requires line[colon + 1..eqPos] == " " + name && Trimmed(name)
    requires line[eqPos + 1..valueEnd] == value
    ensures CutCookie(line, host, colon + 1, eqPos, valueEnd) == Cookie(name, value, host)
  {
    TrimLeadingSpace(name);
  }

  /** `ParseSetCookie` once both separators are located. */
  lemma ParseSetCookieAt(line: string, host: string, start: nat, nameEnd: nat, valueEnd: nat)
    requires NameStart(line) == start
    requires IndexOfChar(line, '=', start) == nameEnd
    requires IndexOfChar(line, ';', nameEnd + 1) == valueEnd
    ensures start <= nameEnd < valueEnd <= |line|
    ensures ParseSetCookie(line, host) == Success(CutCookie(line, host, start, nameEnd, valueEnd))
  {
  }

  /**
   * A `Set-Cookie` line without attributes (`Set-Cookie: id=1`, allowed by
   * section 4.1.1 of RFC 6265) has no `;` after the value, so `ParseSetCookie`
   * throws on it.
   */
  lemma SetCookieWithoutAttributesFails(header: string, name: string, value: string, host: string)
    requires ':' !in header && '=' !in name && ';' !in value
    ensures ParseSetCookie(header + ": " + name + "=" + value, host).Failure?
  {
    var line := header + ": " + name + "=" + value;
    BareSetCookieLayout(header, name, value);
    FirstAt(line, ':', 0, |header|);
    FirstAt(line, '=', |header| + 1, |header| + 2 + |name|);
  }

  /** Where a cookie value ends: at the next `;` from `from` on, or at the end of the line. */
  function ValueEnd(line: string, from: nat): (e: nat)
    requires from <= |line|
    ensures from <= e <= |line|
    ensures forall i :: from <= i < e ==> line[i] != ';'
    ensures e < |line| ==> line[e] == ';'
  {
    var semi := IndexOfChar(line, ';', from);
    if semi < 0 then |line| else semi
  }

  /** The value ends at the first `;` from `from` on, or at the end of the line. */
  lemma ValueEndAt(line: string, from: nat, e: nat)
    requires from <= e <= |line|
    requires forall i :: from <= i < e ==> line[i] != ';'
    requires e < |line| ==> line[e] == ';'
    ensures ValueEnd(line, from) == e
  {
    if e < |line| {
      FirstAt(line, ';', from, e);
    }
  }

  /**
   * The evident intent of the `Set-Cookie` parser: the value runs to the next
   * `;` or, when there is none, to the end of the line.
   */
  function ParseSetCookieToEnd(line: string, host: string): (r: Result<Cookie, Thrown>)
    ensures r.Success? ==>
              && ';' !in r.value.value
              && '=' !in r.value.name
              && Trimmed(r.value.name)
              && r.value.domain == host
    ensures r.Failure? <==> forall i :: NameStart(line) <= i < |line| ==> line[i] != '='
  {
    var start := NameStart(line);
    var nameEnd := IndexOfChar(line, '=', start);
    if nameEnd < 0 then Failure(StringIndexOutOfBounds)
    else
      var valueEnd := ValueEnd(line, nameEnd + 1);
      FieldsAvoidSeparators(line, start, nameEnd, valueEnd);
      Success(CutCookie(line, host, start, nameEnd, valueEnd))
  }

  /** The corrected parser reads a line with attributes back to its cookie. */
  lemma SetCookieToEndRoundTrip(header: string, name: string, value: string, attributes: string, host: string)
    requires ':' !in header
    requires '=' !in name && Trimmed(name)
    requires ';' !in value
    ensures ParseSetCookieToEnd(header + ": " + name + "=" + value + ";" + attributes, host) ==
            Success(Cookie(name, value, host))
  {
    SetCookieLayout(header, name, value, attributes);
    ToEndAtPositions(header + ": " + name + "=" + value + ";" + attributes, host,
                     |header|, |header| + 2 + |name|, |header| + 3 + |name| + |value|, name, value);
  }

  /** The corrected parser also reads a line without attributes back to its cookie. */
  lemma BareSetCookieRoundTrip(header: string, name: string, value: string, host: string)
    requires ':' !in header
    requires '=' !in name && Trimmed(name)
    requires ';' !in value
    ensures ParseSetCookieToEnd(header + ": " + name + "=" + value, host) == Success(Cookie(name, value, host))
  {
    BareSetCookieLayout(header, name, value);
    ToEndAtPositions(header + ": " + name + "=" + value, host,
                     |header|, |header| + 2 + |name|, |header| + 3 + |name| + |value|, name, value);
  }

  /** `ParseSetCookieToEnd` on a line whose separators sit at known positions. */
  lemma ToEndAtPositions(line: string, host: string, colon: nat, eqPos: nat, valueEnd: nat, name: string, value: string)
    requires colon < eqPos < valueEnd <= |line|
    requires line[colon] == ':' && line[eqPos] == '='
    requires valueEnd < |line| ==> line[valueEnd] == ';'
    requires forall i :: 0 <= i < colon ==> line[i] != ':'
    requires forall i :: colon < i < eqPos ==> line[i] != '='
    requires forall i :: eqPos < i < valueEnd ==> line[i] != ';'
    requires line[colon + 1..eqPos] == " " + name && Trimmed(name)
    requires line[eqPos + 1..valueEnd] == value
    ensures ParseSetCookieToEnd(line, host) == Success(Cookie(name, value, host))
  {
    LocateName(line, colon, eqPos);
    ValueEndAt(line, eqPos + 1, valueEnd);
    ToEndAt(line, host, colon + 1, eqPos, valueEnd);
    CutCookieAt(line, host, colon, eqPos, valueEnd, name, value);
  }

  /** `ParseSetCookieToEnd` once the separators are located. */
  lemma ToEndAt(line: string, host: string, start: nat, nameEnd: nat, valueEnd: nat)
    requires NameStart(line) == start
    requires IndexOfChar(line, '=', start) == nameEnd
    requires nameEnd < |line| && ValueEnd(line, nameEnd + 1) == valueEnd
    ensures start <= nameEnd < valueEnd <= |line|
    ensures ParseSetCookieToEnd(line, host) == Success(CutCookie(line, host, start, nameEnd, valueEnd))
  {
  }

  /** The response header lines that start, ignoring ASCII case, with `set-cookie`. */
  function SetCookieLines(lines: seq<string>): (r: seq<string>)
    ensures forall l :: l in r <==> l in lines && StartsWith(ToLowerAscii(l), SetCookieHeader)
  {
    if |lines| == 0 then []
    else if StartsWith(ToLowerAscii(lines[0]), SetCookieHeader) then [lines[0]] + SetCookieLines(lines[1..])
    else SetCookieLines(lines[1..])
  }

  /** The cookies of the lines before the first malformed one, and whether there is one. */
  datatype Parsed = Parsed(cookies: seq<Cookie>, thrown: bool)

  /** `parse` applied to each line in turn, stopping at the first failure. */
  function ParseLines(parse: string -> Result<Cookie, Thrown>, lines: seq<string>): (r: Parsed)
    ensures |r.cookies| <= |lines|
    ensures forall i :: 0 <= i < |r.cookies| ==> parse(lines[i]) == Success(r.cookies[i])
    ensures r.thrown ==> |r.cookies| < |lines| && parse(lines[|r.cookies|]).Failure?
    ensures !r.thrown ==> |r.cookies| == |lines|
  {
    if |lines| == 0 then Parsed([], false)
    else
      var first := parse(lines[0]);
      if first.Failure? then Parsed([], true)
      else
        var rest := ParseLines(parse, lines[1..]);
        assert forall i :: 1 <= i < |lines| ==> lines[i] == lines[1..][i - 1];
        Parsed([first.value] + rest.cookies, rest.thrown)
  }

  /** Parsing throws exactly when some line is malformed. */
  lemma ParseLinesThrows(parse: string -> Result<Cookie, Thrown>, lines: seq<string>)
    ensures ParseLines(parse, lines).thrown <==> exists l :: l in lines && parse(l).Failure?
  {
    var p := ParseLines(parse, lines);
    if p.thrown {
      assert lines[|p.cookies|] in lines;
    } else {
      forall l | l in lines
        ensures parse(l).Success?
      {
        var i :| 0 <= i < |lines| && lines[i] == l;
        assert parse(lines[i]) == Success(p.cookies[i]);
      }
    }
  }

  /** `addCookie` applied to each cookie in turn. */
  function AddAll(eq: (Cookie, Cookie) -> bool, tracked: seq<Cookie>, cs: seq<Cookie>): (r: seq<Cookie>)
    ensures forall t :: t in r ==> t in tracked || t in cs
    ensures EqualityRespectsIdentity(eq) && UniqueIdentities(tracked) ==> UniqueIdentities(r)
    decreases |cs|
  {
    if |cs| == 0 then tracked else AddAll(eq, AddCookie(eq, tracked, cs[0]), cs[1..])
  }

  /**
   * The `Set-Cookie` lines of a response, parsed in turn: the cookies of the
   * lines before the first malformed one, and whether there is one.
   */
  function SetCookiesParsed(headers: string, host: string): (r: Parsed)
    ensures var lines := SetCookieLines(Split(headers, "\n"));
      && |r.cookies| <= |lines|
      && (forall i :: 0 <= i < |r.cookies| ==> ParseSetCookie(lines[i], host) == Success(r.cookies[i]))
      && (r.thrown ==> |r.cookies| < |lines| && ParseSetCookie(lines[|r.cookies|], host).Failure?)
      && (!r.thrown ==> |r.cookies| == |lines|)
      && (r.thrown <==> exists l :: l in lines && ParseSetCookie(l, host).Failure?)
  {
    var lines := SetCookieLines(Split(headers, "\n"));
    var parse := l => ParseSetCookie(l, host);
    ParseLinesThrows(parse, lines);
    ParseLines(parse, lines)
  }

  datatype Absorbed = Absorbed(tracked: seq<Cookie>, thrown: bool)

  /**
   * `addResponseHeaders`: the response headers are split into lines, the
   * `Set-Cookie` lines are parsed and each cookie is added as soon as it is
   * parsed, so a malformed line aborts with the earlier cookies already added.
   */
  function AddResponseHeaders(
    eq: (Cookie, Cookie) -> bool, tracked: seq<Cookie>, headers: string, host: string
  ): (r: Absorbed)
    ensures r.thrown == SetCookiesParsed(headers, host).thrown
    ensures r.thrown <==>
              exists l :: l in SetCookieLines(Split(headers, "\n")) && ParseSetCookie(l, host).Failure?
    ensures EqualityRespectsIdentity(eq) && UniqueIdentities(tracked) ==> UniqueIdentities(r.tracked)
    ensures forall t :: t in r.tracked ==> t in tracked || t in SetCookiesParsed(headers, host).cookies
    ensures forall t :: t in r.tracked ==> t in tracked || FromSetCookieLine(t, headers, host)
    ensures EqualityRespectsIdentity(eq) && UniqueIdentities(tracked) ==>
              LastOfEachKept(tracked, SetCookiesParsed(headers, host).cookies, r.tracked)
  {
    var p := SetCookiesParsed(headers, host);
    var r := AddAll(eq, tracked, p.cookies);
    ParsedFromLines(headers, host);
    assert EqualityRespectsIdentity(eq) && UniqueIdentities(tracked) ==> LastOfEachKept(tracked, p.cookies, r) by {
      if EqualityRespectsIdentity(eq) && UniqueIdentities(tracked) {
        AddAllLastWins(eq, tracked, p.cookies);
      }
    }
    Absorbed(r, p.thrown)
  }

  /** `t` is the cookie of one of the response's `Set-Cookie` lines. */
  predicate FromSetCookieLine(t: Cookie, headers: string, host: string) {
    t.domain == host &&
    exists l :: l in SetCookieLines(Split(headers, "\n")) && ParseSetCookie(l, host) == Success(t)
  }

  /** Every parsed cookie comes from one of the lines. */
  lemma ParsedFromLines(headers: string, host: string)
    ensures forall t :: t in SetCookiesParsed(headers, host).cookies ==> FromSetCookieLine(t, headers, host)
  {
    var lines := SetCookieLines(Split(headers, "\n"));
    var p := SetCookiesParsed(headers, host);
    forall t | t in p.cookies
      ensures FromSetCookieLine(t, headers, host)
    {
      var i :| 0 <= i < |p.cookies| && p.cookies[i] == t;
      assert lines[i] in lines;
    }
  }

  /**
   * `jar` holds the last cookie of each identity in `cs`, and every cookie of
   * `tracked` whose identity `cs` does not mention.
   */
  predicate LastOfEachKept(tracked: seq<Cookie>, cs: seq<Cookie>, jar: seq<Cookie>) {
    && (forall i :: 0 <= i < |cs| && (forall j :: i < j < |cs| ==> !SameIdentity(cs[j], cs[i])) ==> cs[i] in jar)
    && (forall t :: t in tracked && (forall j :: 0 <= j < |cs| ==> !SameIdentity(cs[j], t)) ==> t in jar)
  }

  /**
   * Last write wins: after adding `cs`, a cookie of `cs` that no later cookie
   * of `cs` shares an identity with is tracked, and so is a tracked cookie
   * whose identity `cs` does not mention.
   */
  lemma AddAllLastWins(eq: (Cookie, Cookie) -> bool, tracked: seq<Cookie>, cs: seq<Cookie>)
    requires EqualityRespectsIdentity(eq) && UniqueIdentities(tracked)
    ensures LastOfEachKept(tracked, cs, AddAll(eq, tracked, cs))
  {
    forall i | 0 <= i < |cs| && (forall j :: i < j < |cs| ==> !SameIdentity(cs[j], cs[i]))
      ensures cs[i] in AddAll(eq, tracked, cs)
    {
      AddAllKeepsLast(eq, tracked, cs, i);
    }
    forall t | t in tracked && (forall j :: 0 <= j < |cs| ==> !SameIdentity(cs[j], t))
      ensures t in AddAll(eq, tracked, cs)
    {
      AddAllKeepsTracked(eq, tracked, cs, t);
    }
  }

  /** A cookie that no later cookie shares an identity with is still tracked at the end. */
  lemma {:induction false} AddAllKeepsLast(
    eq: (Cookie, Cookie) -> bool, tracked: seq<Cookie>, cs: seq<Cookie>, i: nat)
    requires EqualityRespectsIdentity(eq) && UniqueIdentities(tracked)
    requires i < |cs| && forall j :: i < j < |cs| ==> !SameIdentity(cs[j], cs[i])
    ensures cs[i] in AddAll(eq, tracked, cs)
    decreases |cs|
  {
    var next := AddCookie(eq, tracked, cs[0]);
    var tail := cs[1..];
    assert AddAll(eq, tracked, cs) == AddAll(eq, next, tail);
    if i == 0 {
      forall j | 0 <= j < |tail|
        ensures !SameIdentity(tail[j], cs[0])
      {
        assert tail[j] == cs[j + 1];
      }
      AddAllKeepsTracked(eq, next, tail, cs[0]);
    } else {
      forall j | i - 1 < j < |tail|
        ensures !SameIdentity(tail[j], tail[i - 1])
      {
        assert tail[j] == cs[j + 1];
      }
      AddAllKeepsLast(eq, next, tail, i - 1);
    }
  }

  /** A tracked cookie whose identity no added cookie has is still tracked at the end. */
  lemma {:induction false} AddAllKeepsTracked(
    eq: (Cookie, Cookie) -> bool, tracked: seq<Cookie>, cs: seq<Cookie>, t: Cookie)
    requires EqualityRespectsIdentity(eq) && UniqueIdentities(tracked)
    requires t in tracked && forall j :: 0 <= j < |cs| ==> !SameIdentity(cs[j], t)
    ensures t in AddAll(eq, tracked, cs)
    decreases |cs|
  {
    if |cs| > 0 {
      var next := AddCookie(eq, tracked, cs[0]);
      var tail := cs[1..];
      KeepOtherIdentity(tracked, cs[0], t);
      forall j | 0 <= j < |tail|
        ensures !SameIdentity(tail[j], t)
      {
        assert tail[j] == cs[j + 1];
      }
      AddAllKeepsTracked(eq, next, tail, t);
    }
  }

  /** A cookie of another identity survives `addCookie`. */
  lemma KeepOtherIdentity(tracked: seq<Cookie>, c: Cookie, t: Cookie)
    requires t in tracked && !SameIdentity(c, t)
    ensures forall eq: (Cookie, Cookie) -> bool :: t in AddCookie(eq, tracked, c)
  {
    RemoveIdentityKeeps(tracked, c, t);
  }

  lemma {:induction false} RemoveIdentityKeeps(s: seq<Cookie>, c: Cookie, t: Cookie)
    requires t in s && !SameIdentity(c, t)
    ensures t in RemoveIdentity(s, c)
    decreases |s|
  {
    if s[0] != t {
      RemoveIdentityKeeps(s[1..], c, t);
    }
  }

  /**
   * Tracking (a, d1, v1) then (a, d1, v2) leaves one cookie for (a, d1), with
   * value v2; tracking (a, d2, v1) afterwards leaves two cookies.
   */
  lemma CookieIdentityScenario(eq: (Cookie, Cookie) -> bool, a: string, d1: string, d2: string, v1: string, v2: string)
    requires EqualityRespectsIdentity(eq)
    requires d1 != d2
    ensures var first := AddCookie(eq, AddCookie(eq, [], Cookie(a, v1, d1)), Cookie(a, v2, d1));
      first == [Cookie(a, v2, d1)] &&
      AddCookie(eq, first, Cookie(a, v1, d2)) == [Cookie(a, v2, d1), Cookie(a, v1, d2)]
  {
    ReplaceSameIdentity(eq, Cookie(a, v1, d1), Cookie(a, v2, d1));
    AddOtherDomain(eq, Cookie(a, v2, d1), Cookie(a, v1, d2));
  }

  /** Tracking a cookie and then one of the same identity keeps only the second. */
  lemma ReplaceSameIdentity(eq: (Cookie, Cookie) -> bool, c1: Cookie, c2: Cookie)
    requires SameIdentity(c1, c2)
    ensures AddCookie(eq, AddCookie(eq, [], c1), c2) == [c2]
  {
    assert AddCookie(eq, [], c1) == [c1];
    assert RemoveIdentity([c1], c2) == [];
  }

  /** A cookie of another identity is appended after the tracked one. */
  lemma AddOtherDomain(eq: (Cookie, Cookie) -> bool, c2: Cookie, c3: Cookie)
    requires EqualityRespectsIdentity(eq)
    requires c2.name == c3.name && c2.domain != c3.domain
    ensures AddCookie(eq, [c2], c3) == [c2, c3]
  {
    assert RemoveIdentity([c2], c3) == [c2] + RemoveIdentity([], c3);
    assert !Contains(eq, [c2], c3);
  }

  /* ---------------- `addMissingCookiesChildren` ---------------- */

  /**
   * What recording one sample does to the jar: the new request cookies, each
   * of which gets a cookie-setting pre-processor, the jar afterwards, and
   * whether a malformed header aborted the step.
   */
  datatype Recorded = Recorded(preProcessors: seq<Cookie>, tracked: seq<Cookie>, thrown: bool)

  /**
   * `addMissingCookiesChildren`: the untracked request cookies are added to
   * the jar one by one, then the response's `Set-Cookie` lines are absorbed.
   * A malformed request cookie throws before anything changes.
   */
  function AddMissingCookies(
    eq: (Cookie, Cookie) -> bool, tracked: seq<Cookie>,
    cookieHeader: Option<string>, responseHeaders: string, host: string
  ): (r: Recorded)
    ensures ExtractNewRequestCookies(eq, tracked, cookieHeader, host).Failure? ==> r == Recorded([], tracked, true)
    ensures ExtractNewRequestCookies(eq, tracked, cookieHeader, host).Success? ==>
              r.preProcessors == ExtractNewRequestCookies(eq, tracked, cookieHeader, host).value &&
              (r.thrown <==> exists l :: l in SetCookieLines(Split(responseHeaders, "\n")) && ParseSetCookie(l, host).Failure?)
    ensures forall c :: c in r.preProcessors ==> c.domain == host && !Contains(eq, tracked, c)
    ensures EqualityRespectsIdentity(eq) && UniqueIdentities(tracked) ==> UniqueIdentities(r.tracked)
  {
    var extracted := ExtractNewRequestCookies(eq, tracked, cookieHeader, host);
    if extracted.Failure? then Recorded([], tracked, true)
    else
      var newCookies := extracted.value;
      var absorbed := AddResponseHeaders(eq, AddAll(eq, tracked, newCookies), responseHeaders, host);
      Recorded(newCookies, absorbed.tracked, absorbed.thrown)
  }

  /**
   * A request cookie that got a pre-processor stays in the jar unless a later
   * request cookie or a `Set-Cookie` line of the response has its identity.
   */
  lemma RecordedKeepsRequestCookie(
    eq: (Cookie, Cookie) -> bool, tracked: seq<Cookie>,
    cookieHeader: Option<string>, responseHeaders: string, host: string, i: nat)
    requires EqualityRespectsIdentity(eq) && UniqueIdentities(tracked)
    requires var r := AddMissingCookies(eq, tracked, cookieHeader, responseHeaders, host);
      && i < |r.preProcessors|
      && (forall j :: i < j < |r.preProcessors| ==> !SameIdentity(r.preProcessors[j], r.preProcessors[i]))
      && (forall l :: l in SetCookieLines(Split(responseHeaders, "\n")) && ParseSetCookie(l, host).Success? ==>
            !SameIdentity(ParseSetCookie(l, host).value, r.preProcessors[i]))
    ensures var r := AddMissingCookies(eq, tracked, cookieHeader, responseHeaders, host);
      r.preProcessors[i] in r.tracked
  {
    var newCookies := ExtractNewRequestCookies(eq, tracked, cookieHeader, host).value;
    var jar := AddAll(eq, tracked, newCookies);
    AddAllLastWins(eq, tracked, newCookies);
    assert newCookies[i] in jar;
    var lines := SetCookieLines(Split(responseHeaders, "\n"));
    var parsed := SetCookiesParsed(responseHeaders, host);
    forall j | 0 <= j < |parsed.cookies|
      ensures !SameIdentity(parsed.cookies[j], newCookies[i])
    {
      assert lines[j] in lines;
    }
    assert AddMissingCookies(eq, tracked, cookieHeader, responseHeaders, host).tracked ==
           AddResponseHeaders(eq, jar, responseHeaders, host).tracked;
  }
}
