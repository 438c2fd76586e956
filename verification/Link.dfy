/**
 * The share link: printer, parser and length prediction. The fragment is an
 * `application/x-www-form-urlencoded` list, as `URLSearchParams` prints and
 * parses it for ASCII text.
 */
module Link {
  import opened Wrappers
  import opened PercentEncoding
  import opened Galois
  import opened Base64Url
  import opened DataStream
  import opened KeyStore
  import opened VersionChoice

  // Form encoding.

  predicate IsFormChar(c: char) {
    IsAlphanumeric(c) || c in {'*', '-', '.', '_'}
  }

  function FormChar(c: char): string
    requires c < 128 as char
  {
    if IsFormChar(c) then [c] else if c == ' ' then "+" else Escape(c)
  }

  function FormEncode(s: string): string
    requires IsAscii(s)
  {
    if s == "" then "" else FormChar(s[0]) + FormEncode(s[1..])
  }

  function FormDecode(s: string): string {
    if s == "" then ""
    else if s[0] == '+' then " " + FormDecode(s[1..])
    else if s[0] == '%' && |s| >= 3 && IsHex(s[1]) && IsHex(s[2]) then [Unescape(s[1], s[2])] + FormDecode(s[3..])
    else [s[0]] + FormDecode(s[1..])
  }

  lemma {:induction false} FormRoundTrip(s: string)
    requires IsAscii(s)
    ensures FormDecode(FormEncode(s)) == s
  {
    hide HexDigit, Escape, Unescape, IsAlphanumeric;
    if s != "" {
      FormRoundTrip(s[1..]);
      var rest := FormEncode(s[1..]);
      if IsFormChar(s[0]) {
        SpecialChars(s[0]);
        assert FormEncode(s) == [s[0]] + rest;
        assert FormEncode(s)[1..] == rest;
      } else if s[0] == ' ' {
        assert FormEncode(s)[1..] == rest;
      } else {
        assert FormEncode(s)[3..] == rest;
        assert FormEncode(s)[..3] == Escape(s[0]);
      }
    }
  }

  lemma SpecialChars(c: char)
    requires IsFormChar(c) || IsHex(c)
    ensures c !in {'+', '%', '&', '=', '#', '?'}
  {
  }

  /** No separator survives the encoding. */
  lemma {:induction false} FormEncodeIsClean(s: string)
    requires IsAscii(s)
    ensures forall c | c in FormEncode(s) :: c !in {'&', '=', '#', '?'}
  {
    hide HexDigit, Escape, IsAlphanumeric;
    if s != "" {
      FormEncodeIsClean(s[1..]);
      var head := FormChar(s[0]);
      forall c | c in head ensures c !in {'&', '=', '#', '?'} {
        if IsFormChar(c) || IsHex(c) {
          SpecialChars(c);
        }
      }
    }
  }

  lemma {:induction false} FormEncodeLeaves(s: string)
    requires IsAscii(s) && forall c | c in s :: IsFormChar(c)
    ensures FormEncode(s) == s
  {
    if s != "" {
      FormEncodeLeaves(s[1..]);
    }
  }

  lemma {:induction false} FormEncodeAppends(s: string, t: string)
    requires IsAscii(s) && IsAscii(t)
    ensures IsAscii(s + t) && FormEncode(s + t) == FormEncode(s) + FormEncode(t)
  {
    hide FormChar;
    if s == "" {
      assert s + t == t;
    } else {
      FormEncodeAppends(s[1..], t);
      assert (s + t)[1..] == s[1..] + t;
      assert FormEncode(s + t) == FormChar(s[0]) + (FormEncode(s[1..]) + FormEncode(t));
    }
  }

  lemma FormCharacter(c: char)
    requires c < 128 as char
    ensures IsAscii([c]) && FormEncode([c])
         == if 'a' <= c <= 'z' || 'A' <= c <= 'Z' || '0' <= c <= '9' || c in "*-._" then [c]
            else if c == ' ' then "+"
            else ['%', "0123456789ABCDEF"[c as int / 16], "0123456789ABCDEF"[c as int % 16]]
  {
    hide Escape;
    EscapeDigits(c);
    assert [c][1..] == "";
    assert c in "*-._" <==> c in {'*', '-', '.', '_'};
  }

  /** What the form encoding makes of text before and after a character, and of the character itself. */
  lemma FormEncodeCharacter(before: string, c: char, after: string)
    requires IsAscii(before) && c < 128 as char && IsAscii(after)
    ensures IsAscii(before + [c] + after)
    ensures FormEncode(before + [c] + after)
         == FormEncode(before)
            + (if 'a' <= c <= 'z' || 'A' <= c <= 'Z' || '0' <= c <= '9' || c in "*-._" then [c]
               else if c == ' ' then "+"
               else ['%', "0123456789ABCDEF"[c as int / 16], "0123456789ABCDEF"[c as int % 16]])
            + FormEncode(after)
  {
    hide FormEncode;
    FormCharacter(c);
    FormEncodeAppends(before, [c]);
    FormEncodeAppends(before + [c], after);
  }

  // Parameter lists.

  type Parameter = (string, string)

  predicate IsAsciiList(pairs: seq<Parameter>) {
    forall i | 0 <= i < |pairs| :: IsAscii(pairs[i].0) && IsAscii(pairs[i].1)
  }

  function Field(p: Parameter): string
    requires IsAscii(p.0) && IsAscii(p.1)
  {
    FormEncode(p.0) + "=" + FormEncode(p.1)
  }

  function Serialize(pairs: seq<Parameter>): string
    requires IsAsciiList(pairs)
  {
    if pairs == [] then ""
    else if |pairs| == 1 then Field(pairs[0])
    else Field(pairs[0]) + "&" + Serialize(pairs[1..])
  }

  /** Position of the first c, or the length. */
  function IndexOf(s: string, c: char): (k: nat)
    ensures k <= |s|
    ensures k < |s| ==> s[k] == c
    ensures forall i | 0 <= i < k :: s[i] != c
  {
    if s == "" || s[0] == c then 0 else 1 + IndexOf(s[1..], c)
  }

  lemma {:induction false} IndexAfter(a: string, c: char, b: string)
    requires c !in a
    ensures IndexOf(a + [c] + b, c) == |a|
    ensures IndexOf(a, c) == |a|
  {
    var s := a + [c] + b;
    if a != "" {
      IndexAfter(a[1..], c, b);
      assert s[1..] == a[1..] + [c] + b;
    }
  }

  function Rest(s: string, k: nat): (r: string)
    ensures s != "" ==> |r| < |s|
  {
    if k < |s| then s[k + 1..] else ""
  }

  function ParseField(piece: string): Parameter {
    var k := IndexOf(piece, '=');
    (FormDecode(piece[..k]), FormDecode(Rest(piece, k)))
  }

  function ParseList(s: string): seq<Parameter>
    decreases |s|
  {
    if s == "" then []
    else
      var k := IndexOf(s, '&');
      (if k == 0 then [] else [ParseField(s[..k])]) + ParseList(Rest(s, k))
  }

  /** The constructor of `URLSearchParams`, which drops a leading question mark. */
  function ParseParams(raw: string): seq<Parameter> {
    ParseList(if raw != "" && raw[0] == '?' then raw[1..] else raw)
  }

  function Get(pairs: seq<Parameter>, name: string): Option<string> {
    if pairs == [] then None
    else if pairs[0].0 == name then Some(pairs[0].1)
    else Get(pairs[1..], name)
  }

  lemma FieldRoundTrip(p: Parameter)
    requires IsAscii(p.0) && IsAscii(p.1)
    ensures ParseField(Field(p)) == p
    ensures forall c | c in Field(p) :: c !in {'&', '#', '?'}
    ensures Field(p) != ""
  {
    hide FormEncode, FormDecode;
    FormEncodeIsClean(p.0);
    FormEncodeIsClean(p.1);
    var name, value := FormEncode(p.0), FormEncode(p.1);
    IndexAfter(name, '=', value);
    assert name + ['='] + value == Field(p);
    assert Field(p)[..|name|] == name;
    assert Rest(Field(p), |name|) == value;
    FormRoundTrip(p.0);
    FormRoundTrip(p.1);
  }

  lemma ParseOneMore(field: string, rest: string)
    requires field != "" && '&' !in field
    ensures ParseList(field) == [ParseField(field)]
    ensures ParseList(field + "&" + rest) == [ParseField(field)] + ParseList(rest)
  {
    hide ParseField;
    var s := field + "&" + rest;
    IndexAfter(field, '&', rest);
    assert field + ['&'] + rest == s;
    assert s[..|field|] == field;
    assert Rest(s, |field|) == rest;
    assert field[..|field|] == field;
  }

  lemma {:induction false} ListRoundTrip(pairs: seq<Parameter>)
    requires IsAsciiList(pairs)
    ensures ParseList(Serialize(pairs)) == pairs
    ensures forall c | c in Serialize(pairs) :: c !in {'#', '?'}
  {
    hide Field, ParseField, ParseList;
    if pairs == [] {
      ParseNothing();
    } else {
      FieldRoundTrip(pairs[0]);
      ListRoundTrip(pairs[1..]);
      ParseOneMore(Field(pairs[0]), Serialize(pairs[1..]));
      assert pairs == [pairs[0]] + pairs[1..];
    }
  }

  lemma ParseNothing()
    ensures ParseList("") == []
  {
  }

  /** Whatever list of ASCII parameters is printed is parsed back. */
  lemma ParamsRoundTrip(pairs: seq<Parameter>)
    requires IsAsciiList(pairs)
    ensures ParseParams(Serialize(pairs)) == pairs
  {
    hide Serialize, ParseList;
    ListRoundTrip(pairs);
    var s := Serialize(pairs);
    if s != "" {
      assert s[0] in s;
    }
  }

  // The link.

  datatype Encrypted = Encrypted(wrapped: string, iv: string, ct: string)

  predicate IsComponentChar(c: char) {
    IsAlphanumeric(c) || c in {'-', '_', '.', '!', '~', '*', '\'', '(', ')'}
  }

  function EncodeComponent(s: string): string
    requires IsAscii(s)
  {
    if s == "" then ""
    else (if IsComponentChar(s[0]) then [s[0]] else Escape(s[0])) + EncodeComponent(s[1..])
  }

  predicate IsAsciiTriple(e: Encrypted) {
    IsAscii(e.wrapped) && IsAscii(e.iv) && IsAscii(e.ct)
  }

  function Parameters(e: Encrypted): seq<Parameter> {
    [("v", "1"), ("w", e.wrapped), ("i", e.iv), ("c", e.ct)]
  }

  /** `origin` is the scheme and host of the page, without a fragment sign. */
  function BuildShareURL(origin: string, id: string, e: Encrypted): string
    requires IsAscii(id) && IsAsciiTriple(e)
  {
    origin + "/share/" + EncodeComponent(id) + "#" + Serialize(Parameters(e))
  }

  /** `location.hash`: the fragment with its sign, empty when there is none or nothing in it. */
  function HashOf(url: string): string {
    var k := IndexOf(url, '#');
    if k + 1 >= |url| then "" else url[k..]
  }

  const NO_FRAGMENT := "This share link is missing its encrypted fragment. Ask the sender for the complete link."
  const UNSUPPORTED := "This share link uses an unsupported fragment version."
  const MISSING_DATA := "This share link is missing encrypted data. Ask the sender for the complete link."

  function Malformed(name: string): string {
    "The " + name + " in this share link is malformed."
  }

  predicate Absent(value: Option<string>) {
    value == None || value == Some("")
  }

  function ParseFragment(hash: string): (r: Result<Encrypted>)
    ensures r.Success? ==>
      MatchesPattern(r.value.wrapped) && MatchesPattern(r.value.iv) && MatchesPattern(r.value.ct)
  {
    var raw := if hash != "" && hash[0] == '#' then hash[1..] else hash;
    if raw == "" then Failure(NO_FRAGMENT)
    else
      var params := ParseParams(raw);
      if Get(params, "v") != Some("1") then Failure(UNSUPPORTED)
      else
        var wrapped, iv, ct := Get(params, "w"), Get(params, "i"), Get(params, "c");
        if Absent(wrapped) || Absent(iv) || Absent(ct) then Failure(MISSING_DATA)
        else if !MatchesPattern(wrapped.value) then Failure(Malformed("wrapped key"))
        else if !MatchesPattern(iv.value) then Failure(Malformed("IV"))
        else if !MatchesPattern(ct.value) then Failure(Malformed("ciphertext"))
        else Success(Encrypted(wrapped.value, iv.value, ct.value))
  }

  /** What the reader of a printed link sees: the triple, or which part of it is unusable. */
  function Verdict(e: Encrypted): Result<Encrypted> {
    if e.wrapped == "" || e.iv == "" || e.ct == "" then Failure(MISSING_DATA)
    else if !MatchesPattern(e.wrapped) then Failure(Malformed("wrapped key"))
    else if !MatchesPattern(e.iv) then Failure(Malformed("IV"))
    else if !MatchesPattern(e.ct) then Failure(Malformed("ciphertext"))
    else Success(e)
  }

  // The path of the link, as a server reads it.

  function PercentDecode(s: string): string {
    if s == "" then ""
    else if s[0] == '%' && |s| >= 3 && IsHex(s[1]) && IsHex(s[2]) then [Unescape(s[1], s[2])] + PercentDecode(s[3..])
    else [s[0]] + PercentDecode(s[1..])
  }

  predicate EndsPath(c: char) {
    c == '?' || c == '#'
  }

  /** A path up to its query or fragment. */
  function PathOf(url: string): (path: string)
    ensures path <= url
    ensures forall i | 0 <= i < |path| :: !EndsPath(path[i])
    ensures |path| < |url| ==> EndsPath(url[|path|])
  {
    if url == "" || EndsPath(url[0]) then "" else [url[0]] + PathOf(url[1..])
  }

  /**
   * The one segment a route like `/share/{id}` captures after its fixed part. An
   * empty segment matches no route, and a browser never sends a dot segment
   * (section 5.2.4 of RFC 3986).
   */
  function ReadSegment(base: string, url: string): Option<string> {
    if !(base <= url) then None
    else
      var segment := PathOf(url[|base|..]);
      var id := PercentDecode(segment);
      if '/' in segment || id in {"", ".", ".."} then None else Some(id)
  }

  function ReadId(origin: string, url: string): Option<string> {
    ReadSegment(origin + "/share/", url)
  }

  /** The path of the request for a key. */
  function FetchPath(id: string): string
    requires IsAscii(id)
  {
    "/api/keys/" + EncodeComponent(id)
  }

  lemma {:induction false} ComponentAppends(s: string, t: string)
    requires IsAscii(s) && IsAscii(t)
    ensures IsAscii(s + t) && EncodeComponent(s + t) == EncodeComponent(s) + EncodeComponent(t)
  {
    hide IsComponentChar, Escape;
    if s == "" {
      assert s + t == t;
    } else {
      ComponentAppends(s[1..], t);
      assert (s + t)[1..] == s[1..] + t;
    }
  }

  lemma EncodedCharacter(c: char)
    requires c < 128 as char
    ensures IsAscii([c]) && EncodeComponent([c])
         == if 'a' <= c <= 'z' || 'A' <= c <= 'Z' || '0' <= c <= '9' || c in "-_.!~*'()" then [c]
            else ['%', "0123456789ABCDEF"[c as int / 16], "0123456789ABCDEF"[c as int % 16]]
  {
    hide Escape;
    EscapeDigits(c);
    assert [c][1..] == "";
  }

  /** What the component encoding makes of text before and after a character, and of the character itself. */
  lemma ComponentCharacter(before: string, c: char, after: string)
    requires IsAscii(before) && c < 128 as char && IsAscii(after)
    ensures IsAscii(before + [c] + after)
    ensures EncodeComponent(before + [c] + after)
         == EncodeComponent(before)
            + (if 'a' <= c <= 'z' || 'A' <= c <= 'Z' || '0' <= c <= '9' || c in "-_.!~*'()" then [c]
               else ['%', "0123456789ABCDEF"[c as int / 16], "0123456789ABCDEF"[c as int % 16]])
            + EncodeComponent(after)
  {
    hide EncodeComponent;
    EncodedCharacter(c);
    ComponentAppends(before, [c]);
    ComponentAppends(before + [c], after);
  }

  lemma {:induction false} ComponentRoundTrip(s: string)
    requires IsAscii(s)
    ensures PercentDecode(EncodeComponent(s)) == s
  {
    hide HexDigit, Escape, Unescape, IsAlphanumeric;
    if s != "" {
      ComponentRoundTrip(s[1..]);
      var rest := EncodeComponent(s[1..]);
      if IsComponentChar(s[0]) {
        ComponentChar(s[0]);
        assert EncodeComponent(s)[1..] == rest;
      } else {
        assert EncodeComponent(s)[3..] == rest;
        assert EncodeComponent(s)[..3] == Escape(s[0]);
      }
    }
  }

  lemma {:induction false} ComponentIsClean(s: string)
    requires IsAscii(s)
    ensures forall i | 0 <= i < |EncodeComponent(s)| :: EncodeComponent(s)[i] !in {'#', '?', '/'}
  {
    hide HexDigit, Escape, IsAlphanumeric;
    if s != "" {
      ComponentIsClean(s[1..]);
      if !IsComponentChar(s[0]) {
        var head := Escape(s[0]);
        HexChar(head[1]);
        HexChar(head[2]);
      } else {
        ComponentChar(s[0]);
      }
    }
  }

  lemma ComponentChar(c: char)
    requires IsComponentChar(c)
    ensures c !in {'#', '?', '/', '%'}
  {
  }

  lemma HexChar(c: char)
    requires IsHex(c)
    ensures c !in {'#', '?', '/'}
  {
  }

  lemma {:induction false} PathBefore(path: string, rest: string)
    requires forall i | 0 <= i < |path| :: !EndsPath(path[i])
    requires rest != "" ==> EndsPath(rest[0])
    ensures PathOf(path + rest) == path
  {
    if path != "" {
      PathBefore(path[1..], rest);
      assert (path + rest)[1..] == path[1..] + rest;
    } else {
      assert path + rest == rest;
    }
  }

  /** A captured segment is decoded to the text that was encoded into it, unless it is empty or dots. */
  lemma SegmentRoundTrip(base: string, id: string, rest: string)
    requires IsAscii(id) && (rest != "" ==> EndsPath(rest[0]))
    ensures ReadSegment(base, base + EncodeComponent(id) + rest) == if id in {"", ".", ".."} then None else Some(id)
  {
    hide EncodeComponent, PercentDecode, PathOf;
    ComponentIsClean(id);
    ComponentRoundTrip(id);
    PathBefore(EncodeComponent(id), rest);
    var url := base + EncodeComponent(id) + rest;
    assert url[..|base|] == base && url[|base|..] == EncodeComponent(id) + rest;
  }

  /** The link and the request for its key name the id they were made for: every ASCII id that a path can name. */
  lemma PathsCarryId(origin: string, id: string, e: Encrypted)
    requires IsAscii(id) && IsAsciiTriple(e)
    ensures var named := if id in {"", ".", ".."} then None else Some(id);
            ReadId(origin, BuildShareURL(origin, id, e)) == named && ReadSegment("/api/keys/", FetchPath(id)) == named
  {
    hide EncodeComponent, ReadSegment, Serialize;
    var url, fragment := BuildShareURL(origin, id, e), "#" + Serialize(Parameters(e));
    assert url == origin + "/share/" + EncodeComponent(id) + fragment;
    SegmentRoundTrip(origin + "/share/", id, fragment);
    assert FetchPath(id) == "/api/keys/" + EncodeComponent(id) + "";
    SegmentRoundTrip("/api/keys/", id, "");
  }

  lemma {:induction false} ComponentLeaves(s: string)
    requires IsAscii(s) && forall c | c in s :: IsAlphanumeric(c)
    ensures EncodeComponent(s) == s
  {
    if s != "" {
      ComponentLeaves(s[1..]);
    }
  }

  lemma HashOfLink(origin: string, id: string, e: Encrypted)
    requires IsAscii(id) && IsAsciiTriple(e) && '#' !in origin
    ensures HashOf(BuildShareURL(origin, id, e)) == "#" + Serialize(Parameters(e))
    ensures Serialize(Parameters(e)) != ""
  {
    hide EncodeComponent, Field;
    ComponentIsClean(id);
    assert '#' !in EncodeComponent(id);
    var before := origin + "/share/" + EncodeComponent(id);
    var list := Serialize(Parameters(e));
    FieldRoundTrip(("v", "1"));
    assert list != "";
    IndexAfter(before, '#', list);
    assert before + ['#'] + list == BuildShareURL(origin, id, e);
  }

  lemma ParametersRead(e: Encrypted)
    ensures Get(Parameters(e), "v") == Some("1") && Get(Parameters(e), "w") == Some(e.wrapped)
    ensures Get(Parameters(e), "i") == Some(e.iv) && Get(Parameters(e), "c") == Some(e.ct)
  {
    var p := Parameters(e);
    assert p[1..] == [("w", e.wrapped), ("i", e.iv), ("c", e.ct)];
    assert p[1..][1..] == [("i", e.iv), ("c", e.ct)];
    assert p[1..][1..][1..] == [("c", e.ct)];
    assert Get(p[1..], "i") == Get(p[1..][1..], "i");
    assert Get(p[1..], "c") == Get(p[1..][1..], "c") == Get(p[1..][1..][1..], "c");
  }

  /** The list has this value under this name, and no earlier one. */
  predicate Carries(pairs: seq<Parameter>, name: string, value: string) {
    exists k | 0 <= k < |pairs| :: pairs[k] == (name, value) && forall j | 0 <= j < k :: pairs[j].0 != name
  }

  lemma {:induction false} GetIsFirst(pairs: seq<Parameter>, name: string, value: string)
    ensures Get(pairs, name) == Some(value) <==> Carries(pairs, name, value)
  {
    if pairs != [] {
      var rest := pairs[1..];
      GetIsFirst(rest, name, value);
      if pairs[0].0 != name {
        if Carries(rest, name, value) {
          var k :| 0 <= k < |rest| && rest[k] == (name, value) && forall j | 0 <= j < k :: rest[j].0 != name;
          assert pairs[k + 1] == (name, value);
          assert forall j | 0 < j < k + 1 :: pairs[j] == rest[j - 1];
        }
        if Carries(pairs, name, value) {
          var k :| 0 <= k < |pairs| && pairs[k] == (name, value) && forall j | 0 <= j < k :: pairs[j].0 != name;
          assert rest[k - 1] == (name, value);
          assert forall j | 0 <= j < k - 1 :: rest[j] == pairs[j + 1];
        }
      } else if pairs[0].1 == value {
        assert pairs[0] == (name, value);
      }
    }
  }

  /** Of printed lists exactly those are accepted that carry version 1 and three base64url parts, and these are the result. */
  lemma AcceptedExactly(pairs: seq<Parameter>, e: Encrypted)
    requires IsAsciiList(pairs)
    ensures ParseFragment("#" + Serialize(pairs)) == Success(e)
        <==> && Carries(pairs, "v", "1")
             && Carries(pairs, "w", e.wrapped) && Carries(pairs, "i", e.iv) && Carries(pairs, "c", e.ct)
             && MatchesPattern(e.wrapped) && MatchesPattern(e.iv) && MatchesPattern(e.ct)
    ensures pairs != [] && !Carries(pairs, "v", "1") ==> ParseFragment("#" + Serialize(pairs)) == Failure(UNSUPPORTED)
  {
    hide ParseParams, Get, Malformed, Carries, Serialize;
    var raw := Serialize(pairs);
    assert ("#" + raw)[1..] == raw;
    ParamsRoundTrip(pairs);
    GetIsFirst(pairs, "v", "1");
    GetIsFirst(pairs, "w", e.wrapped);
    GetIsFirst(pairs, "i", e.iv);
    GetIsFirst(pairs, "c", e.ct);
    PrintedIsSomething(pairs);
  }

  lemma PrintedIsSomething(pairs: seq<Parameter>)
    requires IsAsciiList(pairs)
    ensures Serialize(pairs) == "" <==> pairs == []
    ensures Get([], "v") == None
  {
    hide Field;
    if pairs != [] {
      FieldRoundTrip(pairs[0]);
    }
  }

  /** Printing and parsing are inverse, for every ASCII triple that a link can carry at all. */
  lemma LinkRoundTrip(origin: string, id: string, e: Encrypted)
    requires IsAscii(id) && IsAsciiTriple(e) && '#' !in origin
    ensures ParseFragment(HashOf(BuildShareURL(origin, id, e))) == Verdict(e)
  {
    hide BuildShareURL, HashOf, Serialize, ParseParams, MatchesPattern, Get, Malformed;
    HashOfLink(origin, id, e);
    var hash := "#" + Serialize(Parameters(e));
    assert hash[1..] == Serialize(Parameters(e));
    ParamsRoundTrip(Parameters(e));
    ParametersRead(e);
  }

  datatype Split = Split(sent: string, kept: string)

  /** What reaches the server and what stays in the browser. */
  function SplitShareURL(url: string): Split {
    Split(PathOf(url), HashOf(url))
  }

  /** A link splits into its address, which the encrypted parts have no influence on, and its fragment: nothing is lost. */
  lemma OnlyIdIsSent(origin: string, id: string, e: Encrypted)
    requires IsAscii(id) && IsAsciiTriple(e) && forall i | 0 <= i < |origin| :: !EndsPath(origin[i])
    ensures var url := BuildShareURL(origin, id, e);
            && SplitShareURL(url).sent == origin + "/share/" + EncodeComponent(id)
            && SplitShareURL(url).kept == "#" + Serialize(Parameters(e))
            && SplitShareURL(url).sent + SplitShareURL(url).kept == url
  {
    hide EncodeComponent, Serialize, HashOf, PathOf;
    ComponentIsClean(id);
    HashOfLink(origin, id, e);
    var path := origin + "/share/" + EncodeComponent(id);
    assert forall i | 0 <= i < |path| :: !EndsPath(path[i]);
    PathBefore(path, "#" + Serialize(Parameters(e)));
    assert BuildShareURL(origin, id, e) == path + ("#" + Serialize(Parameters(e)));
  }

  lemma UrlTextIsAscii(s: string)
    requires MatchesPattern(s)
    ensures IsAscii(s) && forall c | c in s :: IsFormChar(c)
  {
  }

  /** One link yields both: the id it was made for, and the very bytes the sender encoded. */
  lemma LinkCarriesBytes(origin: string, id: string, wrapped: seq<Byte>, iv: seq<Byte>, ct: seq<Byte>)
    requires IsAscii(id) && '#' !in origin && wrapped != [] && iv != [] && ct != []
    ensures var e := Encrypted(BytesToUrl(wrapped), BytesToUrl(iv), BytesToUrl(ct));
            && IsAsciiTriple(e)
            && ParseFragment(HashOf(BuildShareURL(origin, id, e))) == Success(e)
            && FromUrl(e.wrapped) == Success(wrapped) && FromUrl(e.iv) == Success(iv) && FromUrl(e.ct) == Success(ct)
            && ReadId(origin, BuildShareURL(origin, id, e)) == if id in {"", ".", ".."} then None else Some(id)
  {
    hide BuildShareURL, HashOf, ParseFragment, BytesToUrl, FromUrl, ReadId;
    UrlRoundTrip(wrapped);
    UrlRoundTrip(iv);
    UrlRoundTrip(ct);
    var e := Encrypted(BytesToUrl(wrapped), BytesToUrl(iv), BytesToUrl(ct));
    UrlTextIsAscii(e.wrapped);
    UrlTextIsAscii(e.iv);
    UrlTextIsAscii(e.ct);
    LinkRoundTrip(origin, id, e);
    PathsCarryId(origin, id, e);
    EmptyHasNoMatch(e);
  }

  lemma EmptyHasNoMatch(e: Encrypted)
    requires MatchesPattern(e.wrapped) && MatchesPattern(e.iv) && MatchesPattern(e.ct)
    ensures Verdict(e) == Success(e)
  {
  }

  // The length prediction.

  const QR_CAPACITY: nat := 2331
  const ID_LENGTH: nat := 32
  const WRAPPED_KEY_LENGTH: nat := 683
  const IV_LENGTH: nat := 16
  const GCM_TAG_BYTES: nat := 16

  function Base64URLLength(bytes: nat): nat {
    (bytes * 4 + 2) / 3
  }

  function EstimateLinkLength(origin: string, plaintextBytes: nat): nat {
    |origin + "/share/"| + ID_LENGTH
    + |"#v=1&w="| + WRAPPED_KEY_LENGTH
    + |"&i="| + IV_LENGTH
    + |"&c="| + Base64URLLength(plaintextBytes + GCM_TAG_BYTES)
  }

  lemma SerializeOneMore(p: Parameter, rest: seq<Parameter>)
    requires IsAscii(p.0) && IsAscii(p.1) && IsAsciiList(rest)
    ensures IsAsciiList([p] + rest)
    ensures Serialize([p] + rest) == if rest == [] then Field(p) else Field(p) + "&" + Serialize(rest)
  {
    hide Field;
    assert ([p] + rest)[1..] == rest;
  }

  lemma SerializeOne(p: Parameter)
    requires IsAscii(p.0) && IsAscii(p.1)
    ensures IsAsciiList([p]) && Serialize([p]) == Field(p)
  {
    hide Field;
  }

  /** A parameter whose value needs no escapes. */
  lemma PlainField(name: char, value: string)
    requires IsAlphanumeric(name) && MatchesPattern(value)
    ensures IsAscii([name]) && IsAscii(value)
    ensures Field(([name], value)) == [name] + "=" + value
  {
    hide FormEncode;
    UrlTextIsAscii(value);
    FormEncodeLeaves([name]);
    FormEncodeLeaves(value);
  }

  /** The fragment of a link with well-formed parts, spelled out. */
  lemma PrintedFragment(e: Encrypted)
    requires MatchesPattern(e.wrapped) && MatchesPattern(e.iv) && MatchesPattern(e.ct)
    ensures IsAsciiTriple(e)
    ensures Serialize(Parameters(e)) == "v=1&w=" + e.wrapped + "&i=" + e.iv + "&c=" + e.ct
    ensures |Serialize(Parameters(e))| == 6 + |e.wrapped| + 3 + |e.iv| + 3 + |e.ct|
  {
    hide Field, MatchesPattern, IsAscii, Serialize;
    One();
    PlainField('v', "1");
    PlainField('w', e.wrapped);
    PlainField('i', e.iv);
    PlainField('c', e.ct);
    SerializedFields(("v", "1"), ("w", e.wrapped), ("i", e.iv), ("c", e.ct));
  }

  lemma SerializedFields(a: Parameter, b: Parameter, c: Parameter, d: Parameter)
    requires IsAscii(a.0) && IsAscii(a.1) && IsAscii(b.0) && IsAscii(b.1)
    requires IsAscii(c.0) && IsAscii(c.1) && IsAscii(d.0) && IsAscii(d.1)
    ensures IsAsciiList([a, b, c, d])
    ensures Serialize([a, b, c, d]) == Field(a) + "&" + Field(b) + "&" + Field(c) + "&" + Field(d)
  {
    hide Field, IsAscii, Serialize, IsAsciiList;
    SerializeOne(d);
    SerializeOneMore(c, [d]);
    assert [c] + [d] == [c, d];
    SerializeOneMore(b, [c, d]);
    assert [b] + [c, d] == [b, c, d];
    SerializeOneMore(a, [b, c, d]);
    assert [a] + [b, c, d] == [a, b, c, d];
  }

  lemma One()
    ensures MatchesPattern("1")
  {
  }

  /** The prediction is exact for an RSA-4096 wrapped key, a 96-bit IV and any plaintext size. */
  lemma EstimateIsExact(origin: string, id: string, wrapped: seq<Byte>, iv: seq<Byte>, ct: seq<Byte>, plaintextBytes: nat)
    requires IsHexId(id) && |wrapped| == 512 && |iv| == 12 && |ct| == plaintextBytes + GCM_TAG_BYTES
    ensures var e := Encrypted(BytesToUrl(wrapped), BytesToUrl(iv), BytesToUrl(ct));
            && IsAscii(id) && IsAsciiTriple(e)
            && |BuildShareURL(origin, id, e)| == EstimateLinkLength(origin, plaintextBytes)
  {
    hide BytesToUrl, MatchesPattern, Serialize, IsHexId, IsAscii, EncodeComponent, FromUrl;
    UrlRoundTrip(wrapped);
    UrlRoundTrip(iv);
    UrlRoundTrip(ct);
    var e := Encrypted(BytesToUrl(wrapped), BytesToUrl(iv), BytesToUrl(ct));
    PrintedFragment(e);
    KeyIdIsPlain(id);
  }

  lemma KeyIdIsPlain(id: string)
    requires IsHexId(id)
    ensures IsAscii(id) && EncodeComponent(id) == id && |id| == ID_LENGTH
  {
    ComponentLeaves(id);
  }

  /** A link for an id as the server draws it, spelled out. */
  lemma LinkSpelledOut(origin: string, id: string, e: Encrypted)
    requires IsHexId(id)
    requires MatchesPattern(e.wrapped) && MatchesPattern(e.iv) && MatchesPattern(e.ct)
    ensures IsAscii(id) && IsAsciiTriple(e)
    ensures BuildShareURL(origin, id, e)
         == origin + "/share/" + id + "#v=1&w=" + e.wrapped + "&i=" + e.iv + "&c=" + e.ct
    ensures ReadId(origin, BuildShareURL(origin, id, e)) == Some(id)
  {
    hide MatchesPattern, Serialize, IsAscii, EncodeComponent, ReadId;
    PrintedFragment(e);
    KeyIdIsPlain(id);
    PathsCarryId(origin, id, e);
    assert "#v=1&w=" == "#" + "v=1&w=";
  }

  // The "fits in a QR code" label of the create page.

  predicate LabelSaysFits(origin: string, plaintextBytes: nat) {
    EstimateLinkLength(origin, plaintextBytes) <= QR_CAPACITY
  }

  /** A symbol for the URL exists: `Estimate` reaches some capacity entry. No URL is a numeral. */
  predicate SymbolExists(url: string)
    requires IsAscii(url)
  {
    Estimate(url, None) <= 2331
  }

  /** The label is right about a link exactly when its length is not one of the last three below the capacity. */
  lemma LabelIsRight(origin: string, plaintextBytes: nat, url: string)
    requires IsAscii(url) && |url| == EstimateLinkLength(origin, plaintextBytes)
    ensures LabelSaysFits(origin, plaintextBytes) == SymbolExists(url)
        <==> !(2329 <= EstimateLinkLength(origin, plaintextBytes) <= 2331)
  {
    hide Estimate, EstimateLinkLength;
    LongestText(url);
  }

  /** Links of this plaintext size are labelled as fitting and have no symbol. */
  ghost predicate Misleading(origin: string, plaintextBytes: nat) {
    && LabelSaysFits(origin, plaintextBytes)
    && forall url: string | IsAscii(url) && |url| == EstimateLinkLength(origin, plaintextBytes) :: !SymbolExists(url)
  }

  lemma MisleadingIs(origin: string, n: nat)
    ensures Misleading(origin, n) <==> 2329 <= EstimateLinkLength(origin, n) <= 2331
  {
    hide Estimate, SymbolExists, EstimateLinkLength;
    forall url: string | IsAscii(url) && |url| == EstimateLinkLength(origin, n)
      ensures !SymbolExists(url) == (LabelSaysFits(origin, n) != !(2329 <= EstimateLinkLength(origin, n) <= 2331))
    {
      LabelIsRight(origin, n, url);
    }
    var url := seq(EstimateLinkLength(origin, n), i => 'a');
    LabelIsRight(origin, n, url);
  }

  /** Some plaintext size has a misleading label exactly for origins of at most 1558 characters. */
  lemma LabelCanBeWrong(origin: string)
    ensures (exists n: nat :: Misleading(origin, n)) <==> |origin| <= 1558
  {
    hide Misleading;
    var fixed := |origin| + 7 + 32 + 7 + 683 + 3 + 16 + 3;
    forall n: nat
      ensures EstimateLinkLength(origin, n) == fixed + Base64URLLength(n + 16) >= fixed + 22
      ensures Misleading(origin, n) <==> 2329 <= fixed + Base64URLLength(n + 16) <= 2331
    {
      MisleadingIs(origin, n);
    }
    if |origin| <= 1558 {
      var m: nat := (2331 - fixed) * 3 / 4;
      assert Misleading(origin, m - 16);
    }
  }
}
