/**
 * The multipart/form-data reader of the web front end
 * (PaginatorHandler._parse_multipart), over bytes: find the boundary in the
 * Content-Type header, split the body on "--" + boundary, and route each
 * part to the form fields or to the uploaded file. The regular-expression
 * searches of the source are written as explicit first-match scans.
 */
module Multipart {
  import opened Wrappers

  newtype byte = x: int | 0 <= x < 256
  type Bytes = seq<byte>

  /** "boundary=" */
  const BoundaryKey: Bytes := [98, 111, 117, 110, 100, 97, 114, 121, 61]
  /** name=" */
  const NameKey: Bytes := [110, 97, 109, 101, 61, 34]
  /** filename=" */
  const FilenameKey: Bytes := [102, 105, 108, 101, 110, 97, 109, 101, 61, 34]
  /** "--" */
  const Dash2: Bytes := [45, 45]
  /** "\r\n" */
  const CRLF: Bytes := [13, 10]
  /** "\r\n\r\n", the end of a part's headers. */
  const CRLFCRLF: Bytes := [13, 10, 13, 10]
  const Quote: byte := 34

  /** key occurs in s at position i. */
  predicate StartsAt(s: Bytes, i: int, key: Bytes) {
    0 <= i && i + |key| <= |s| && s[i..i + |key|] == key
  }

  ghost predicate Occurs(s: Bytes, key: Bytes) {
    exists i :: StartsAt(s, i, key)
  }

  /** The first position at or after from where key occurs in s. */
  function FindFrom(s: Bytes, key: Bytes, from: nat): (r: Option<nat>)
    decreases |s| - from
    ensures r.Some? ==> from <= r.value && StartsAt(s, r.value, key)
    ensures r.Some? ==> forall j :: from <= j < r.value ==> !StartsAt(s, j, key)
    ensures r.None? ==> forall j :: from <= j ==> !StartsAt(s, j, key)
  {
    if from + |key| > |s| then None
    else if s[from..from + |key|] == key then Some(from)
    else FindFrom(s, key, from + 1)
  }

  /** The search from the start finds key exactly when key occurs. */
  lemma FindFromOccurs(s: Bytes, key: Bytes)
    ensures FindFrom(s, key, 0).Some? <==> Occurs(s, key)
  {
    if Occurs(s, key) {
      var w :| StartsAt(s, w, key);
    }
  }

  /** An occurrence inside a prefix is an occurrence in the whole. */
  lemma StartsAtPrefix(s: Bytes, n: int, i: int, key: Bytes)
    requires 0 <= n <= |s| && StartsAt(s[..n], i, key)
    ensures StartsAt(s, i, key)
  {
    assert s[..n][i..i + |key|] == s[i..i + |key|];
  }

  /** The parts of s between occurrences of sep, scanning left to right: bytes.split. */
  function SplitOn(s: Bytes, sep: Bytes): (parts: seq<Bytes>)
    requires |sep| > 0
    decreases |s|
    ensures |parts| >= 1
    ensures forall k :: 0 <= k < |parts| ==> !Occurs(parts[k], sep)
    ensures forall k :: 0 <= k < |parts| - 1 ==> !Occurs(parts[k] + sep[..|sep| - 1], sep)
    ensures JoinWith(parts, sep) == s
  {
    match FindFrom(s, sep, 0)
    case None => [s]
    case Some(i) =>
      var head := s[..i];
      assert !Occurs(head, sep) by {
        forall j | StartsAt(head, j, sep) ensures false {
          StartsAtPrefix(s, i, j, sep);
        }
      }
      var near := head + sep[..|sep| - 1];
      assert !Occurs(near, sep) by {
        assert near == s[..i + |sep| - 1];
        forall j | StartsAt(near, j, sep) ensures false {
          StartsAtPrefix(s, i + |sep| - 1, j, sep);
        }
      }
      var rest := SplitOn(s[i + |sep|..], sep);
      assert s == head + sep + s[i + |sep|..];
      [head] + rest
  }

  /** A delimiter that overlaps itself is split at its first occurrence: "---" on "--" gives "" and "-". */
  lemma SplitOnOverlappingDelimiter()
    ensures SplitOn([45, 45, 45], Dash2) == [[], [45]]
  {
    assert FindFrom([45, 45, 45], Dash2, 0) == Some(0);
    var rest: Bytes := [45, 45, 45][2..];
    assert rest == [45];
    assert FindFrom(rest, Dash2, 0) == None;
  }

  /** The parts with sep between each two: what SplitOn undoes. */
  function JoinWith(parts: seq<Bytes>, sep: Bytes): Bytes
    requires |parts| >= 1
  {
    if |parts| == 1 then parts[0] else parts[0] + sep + JoinWith(parts[1..], sep)
  }

  /** `\s` in a regular expression over a header string, for code points below 256. */
  predicate IsRegexSpace(c: byte) {
    c == 32 || (9 <= c <= 13) || (28 <= c <= 31) || c == 133 || c == 160
  }

  /** A byte the boundary pattern [^\s;] accepts. */
  predicate IsBoundaryByte(c: byte) {
    !IsRegexSpace(c) && c != 59
  }

  /** The length of the run of boundary bytes starting at from. */
  function BoundaryRun(s: Bytes, from: nat): (n: nat)
    requires from <= |s|
    decreases |s| - from
    ensures from + n <= |s|
    ensures forall k :: from <= k < from + n ==> IsBoundaryByte(s[k])
    ensures from + n < |s| ==> !IsBoundaryByte(s[from + n])
  {
    if from < |s| && IsBoundaryByte(s[from]) then 1 + BoundaryRun(s, from + 1) else 0
  }

  /** boundary=([^\s;]+) matches at j. */
  predicate BoundaryMatchAt(ct: Bytes, j: int) {
    StartsAt(ct, j, BoundaryKey) && j + 9 < |ct| && IsBoundaryByte(ct[j + 9])
  }

  /** The leftmost match of the boundary pattern at or after from. */
  function FirstBoundaryMatch(ct: Bytes, from: nat): (r: Option<nat>)
    decreases |ct| - from
    ensures r.Some? ==> from <= r.value && BoundaryMatchAt(ct, r.value)
    ensures r.Some? ==> forall j :: from <= j < r.value ==> !BoundaryMatchAt(ct, j)
    ensures r.None? ==> forall j :: from <= j ==> !BoundaryMatchAt(ct, j)
  {
    match FindFrom(ct, BoundaryKey, from)
    case None => None
    case Some(j) =>
      if j + 9 < |ct| && IsBoundaryByte(ct[j + 9]) then Some(j)
      else
        assert forall i :: from <= i <= j ==> !BoundaryMatchAt(ct, i) by {
          forall i | from <= i < j ensures !BoundaryMatchAt(ct, i) {
            assert !StartsAt(ct, i, BoundaryKey);
          }
        }
        FirstBoundaryMatch(ct, j + 1)
  }

  /**
   * The boundary named by a Content-Type value: the longest run of bytes
   * other than whitespace and ';' after the first "boundary=" that is
   * followed by at least one such byte.
   */
  function Boundary(ct: Bytes): (r: Option<Bytes>)
    ensures r.None? <==> forall j :: !BoundaryMatchAt(ct, j)
    ensures r.Some? ==> |r.value| >= 1 && forall k :: 0 <= k < |r.value| ==> IsBoundaryByte(r.value[k])
    ensures r.Some? ==> exists j :: && BoundaryMatchAt(ct, j) && (forall i :: 0 <= i < j ==> !BoundaryMatchAt(ct, i))
                                    && r.value == ct[j + 9..j + 9 + BoundaryRun(ct, j + 9)]
  {
    match FirstBoundaryMatch(ct, 0)
    case None => None
    case Some(j) => Some(ct[j + 9..j + 9 + BoundaryRun(ct, j + 9)])
  }

  /** The whitespace bytes.strip removes. */
  predicate IsAsciiSpace(c: byte) {
    c == 32 || (9 <= c <= 13)
  }

  /** The first index at or after i that does not hold whitespace (SkipSpacesFacts). */
  function SkipSpaces(s: Bytes, i: nat): nat
    requires i <= |s|
    decreases |s| - i
  {
    if i < |s| && IsAsciiSpace(s[i]) then SkipSpaces(s, i + 1) else i
  }

  lemma {:induction false} SkipSpacesFacts(s: Bytes, i: nat)
    requires i <= |s|
    decreases |s| - i
    ensures i <= SkipSpaces(s, i) <= |s|
    ensures forall j :: i <= j < SkipSpaces(s, i) ==> IsAsciiSpace(s[j])
    ensures SkipSpaces(s, i) < |s| ==> !IsAsciiSpace(s[SkipSpaces(s, i)])
  {
    if i < |s| && IsAsciiSpace(s[i]) {
      SkipSpacesFacts(s, i + 1);
    }
  }

  /** The end of s[lo..e] once its trailing whitespace is cut (TrimEndFacts). */
  function TrimEnd(s: Bytes, lo: nat, e: nat): nat
    requires lo <= e <= |s|
    decreases e
  {
    if e > lo && IsAsciiSpace(s[e - 1]) then TrimEnd(s, lo, e - 1) else e
  }

  lemma {:induction false} TrimEndFacts(s: Bytes, lo: nat, e: nat)
    requires lo <= e <= |s|
    decreases e
    ensures lo <= TrimEnd(s, lo, e) <= e
    ensures forall j :: TrimEnd(s, lo, e) <= j < e ==> IsAsciiSpace(s[j])
    ensures TrimEnd(s, lo, e) > lo ==> !IsAsciiSpace(s[TrimEnd(s, lo, e) - 1])
  {
    if e > lo && IsAsciiSpace(s[e - 1]) {
      TrimEndFacts(s, lo, e - 1);
    }
  }

  /**
   * bytes.strip(): the slice of s left once the whitespace at both ends is
   * removed; it is empty when s is all whitespace.
   */
  function Strip(s: Bytes): (t: Bytes)
    ensures t != [] ==> !IsAsciiSpace(t[0]) && !IsAsciiSpace(t[|t| - 1])
  {
    var lo := SkipSpaces(s, 0);
    SkipSpacesFacts(s, 0);
    TrimEndFacts(s, lo, |s|);
    s[lo..TrimEnd(s, lo, |s|)]
  }

  /** Strip removes whitespace only, and all of it at both ends. */
  lemma StripTrimsEnds(s: Bytes)
    ensures SkipSpaces(s, 0) <= |s|
    ensures
      var lo := SkipSpaces(s, 0);
      var hi := TrimEnd(s, lo, |s|);
      && lo <= hi <= |s| && Strip(s) == s[lo..hi]
      && (forall j :: 0 <= j < lo || hi <= j < |s| ==> IsAsciiSpace(s[j]))
      && (lo < hi ==> !IsAsciiSpace(s[lo]) && !IsAsciiSpace(s[hi - 1]))
  {
    SkipSpacesFacts(s, 0);
    TrimEndFacts(s, SkipSpaces(s, 0), |s|);
  }

  /** A stripped part the reader skips: empty, "--" or "--\r\n" (ClosingForms). */
  predicate IsClosing(t: Bytes) {
    || |t| == 0
    || (|t| == 2 && t[0] == 45 && t[1] == 45)
    || (|t| == 4 && t[0] == 45 && t[1] == 45 && t[2] == 13 && t[3] == 10)
  }

  /** IsClosing accepts exactly the three skipped forms. */
  lemma ClosingForms(t: Bytes)
    ensures IsClosing(t) <==> t == [] || t == Dash2 || t == Dash2 + CRLF
  {
    if |t| == 2 && t[0] == 45 && t[1] == 45 {
      assert t == Dash2;
    }
    if |t| == 4 && t[0] == 45 && t[1] == 45 && t[2] == 13 && t[3] == 10 {
      assert t == Dash2 + CRLF;
    }
  }

  /** The "--\r\n" alternative never applies: a stripped part does not end in whitespace. */
  lemma StrippedIsNeverDashCrlf(s: Bytes)
    ensures Strip(s) != Dash2 + CRLF
  {
  }

  /** The body with one trailing "\r\n" removed, when it has one. */
  function DropCrlf(body: Bytes): (r: Bytes)
    ensures |body| >= 2 && body[|body| - 2..] == CRLF ==> r + CRLF == body
    ensures !(|body| >= 2 && body[|body| - 2..] == CRLF) ==> r == body
  {
    if |body| >= 2 && body[|body| - 2..] == CRLF then body[..|body| - 2] else body
  }

  /** The length of the run of non-quote bytes starting at from. */
  function NonQuoteRun(s: Bytes, from: nat): (n: nat)
    requires from <= |s|
    decreases |s| - from
    ensures from + n <= |s|
    ensures forall k :: from <= k < from + n ==> s[k] != Quote
    ensures from + n < |s| ==> s[from + n] == Quote
  {
    if from < |s| && s[from] != Quote then 1 + NonQuoteRun(s, from + 1) else 0
  }

  /** name="([^"]+)" matches at j: the key, at least one non-quote byte, a closing quote. */
  predicate NameMatchAt(h: Bytes, j: int) {
    StartsAt(h, j, NameKey) && NonQuoteRun(h, j + 6) >= 1 && j + 6 + NonQuoteRun(h, j + 6) < |h|
  }

  /** The leftmost match of the name pattern at or after from. */
  function FirstNameMatch(h: Bytes, from: nat): (r: Option<nat>)
    decreases |h| - from
    ensures r.Some? ==> from <= r.value && NameMatchAt(h, r.value)
    ensures r.Some? ==> forall j :: from <= j < r.value ==> !NameMatchAt(h, j)
    ensures r.None? ==> forall j :: from <= j ==> !NameMatchAt(h, j)
  {
    match FindFrom(h, NameKey, from)
    case None => None
    case Some(j) =>
      var n := NonQuoteRun(h, j + 6);
      if n >= 1 && j + 6 + n < |h| then Some(j)
      else
        assert forall i :: from <= i <= j ==> !NameMatchAt(h, i) by {
          forall i | from <= i < j ensures !NameMatchAt(h, i) {
            assert !StartsAt(h, i, NameKey);
          }
        }
        FirstNameMatch(h, j + 1)
  }

  /** The form-field name in a part's headers: the quoted text of the first name match. */
  function FieldName(h: Bytes): (r: Option<Bytes>)
    ensures r.None? <==> forall j :: !NameMatchAt(h, j)
    ensures r.Some? ==> |r.value| >= 1 && Quote !in r.value
    ensures r.Some? ==> exists j :: && NameMatchAt(h, j) && (forall i :: 0 <= i < j ==> !NameMatchAt(h, i))
                                    && r.value == h[j + 6..j + 6 + NonQuoteRun(h, j + 6)]
  {
    match FirstNameMatch(h, 0)
    case None => None
    case Some(j) => Some(h[j + 6..j + 6 + NonQuoteRun(h, j + 6)])
  }

  /** What one part does to the result. */
  datatype Effect = Skip | SetField(name: Bytes, value: Bytes) | SetFile(data: Bytes)

  /** The part-routing rule of the reader; PartRules states it case by case. */
  function PartEffect(part: Bytes): Effect {
    if part == [] || IsClosing(Strip(part)) then Skip
    else match FindFrom(part, CRLFCRLF, 0)
      case None => Skip
      case Some(i) => RouteHeaders(part[..i], DropCrlf(part[i + 4..]))
  }

  /** A part with headers: unnamed parts are skipped, a filename makes it the upload. */
  function RouteHeaders(header: Bytes, payload: Bytes): Effect {
    match FieldName(header)
    case None => Skip
    case Some(name) =>
      if FindFrom(header, FilenameKey, 0).Some? then SetFile(payload) else SetField(name, payload)
  }

  /**
   * Skipped: empty parts, parts that strip to "" or "--", and parts without
   * "\r\n\r\n". The headers of any other part are the bytes before the
   * first "\r\n\r\n".
   */
  lemma PartRules(part: Bytes)
    ensures part == [] || IsClosing(Strip(part)) ==> PartEffect(part) == Skip
    ensures !Occurs(part, CRLFCRLF) ==> PartEffect(part) == Skip
    ensures forall i :: FindFrom(part, CRLFCRLF, 0) == Some(i) ==> i + 4 <= |part| && !Occurs(part[..i], CRLFCRLF)
  {
    FindFromOccurs(part, CRLFCRLF);
    match FindFrom(part, CRLFCRLF, 0)
    case None =>
    case Some(i) =>
      forall j | StartsAt(part[..i], j, CRLFCRLF) ensures false {
        StartsAtPrefix(part, i, j, CRLFCRLF);
      }
  }

  /**
   * A part whose headers end at i: it is skipped when it is empty, strips to
   * "" or "--", or its headers have no name; every other such part acts. The
   * payload is the rest with one trailing "\r\n" dropped; it is the upload
   * when the headers mention filename=" (such a part never sets a field), and
   * the value of the named field otherwise.
   */
  lemma PartWithHeaders(part: Bytes, i: nat)
    requires FindFrom(part, CRLFCRLF, 0) == Some(i)
    ensures
      var header := part[..i];
      var e := PartEffect(part);
      && (e != Skip <==> !(part == [] || IsClosing(Strip(part))) && FieldName(header).Some?)
      && (e != Skip ==> (e.SetFile? <==> Occurs(header, FilenameKey)))
      && (e.SetField? ==> e.name == FieldName(header).value && e.value == DropCrlf(part[i + 4..]))
      && (e.SetFile? ==> e.data == DropCrlf(part[i + 4..]))
  {
    if !(part == [] || IsClosing(Strip(part))) {
      assert PartEffect(part) == RouteHeaders(part[..i], DropCrlf(part[i + 4..]));
      RouteRules(part[..i], DropCrlf(part[i + 4..]));
    }
  }

  lemma RouteRules(header: Bytes, payload: Bytes)
    ensures
      var e := RouteHeaders(header, payload);
      && (e != Skip <==> FieldName(header).Some?)
      && (e != Skip ==> (e.SetFile? <==> Occurs(header, FilenameKey)))
      && (e.SetField? ==> e.name == FieldName(header).value && e.value == payload)
      && (e.SetFile? ==> e.data == payload)
  {
    FindFromOccurs(header, FilenameKey);
  }

  /** A part that is not skipped outright is routed by its headers. */
  lemma PartEffectRoutes(part: Bytes, i: nat)
    requires !(part == [] || IsClosing(Strip(part))) && FindFrom(part, CRLFCRLF, 0) == Some(i)
    ensures PartEffect(part) == RouteHeaders(part[..i], DropCrlf(part[i + 4..]))
  {
  }

  /** f applied to every part, in order. */
  function MapParts(f: Bytes -> Effect, parts: seq<Bytes>): (es: seq<Effect>)
    ensures |es| == |parts|
  {
    if parts == [] then [] else [f(parts[0])] + MapParts(f, parts[1..])
  }

  /** Entry k of the map is f of part k. */
  lemma {:induction false} MapPartsAt(f: Bytes -> Effect, parts: seq<Bytes>, k: int)
    requires 0 <= k < |parts|
    ensures MapParts(f, parts)[k] == f(parts[k])
  {
    if k > 0 {
      MapPartsAt(f, parts[1..], k - 1);
    }
  }

  /** Mapping two runs of parts, one after the other. */
  lemma {:induction false} MapPartsConcat(f: Bytes -> Effect, p: seq<Bytes>, q: seq<Bytes>)
    ensures MapParts(f, p + q) == MapParts(f, p) + MapParts(f, q)
  {
    if p == [] {
      assert p + q == q;
    } else {
      var r := p[1..];
      assert p + q == [p[0]] + (r + q);
      MapPartsConcat(f, r, q);
      calc {
        MapParts(f, p + q);
        MapParts(f, [p[0]] + (r + q));
        [f(p[0])] + MapParts(f, r + q);
        [f(p[0])] + (MapParts(f, r) + MapParts(f, q));
        ([f(p[0])] + MapParts(f, r)) + MapParts(f, q);
        MapParts(f, p) + MapParts(f, q);
      }
    }
  }

  /** The effect of every part, in order. */
  function EffectsOf(parts: seq<Bytes>): (es: seq<Effect>)
    ensures |es| == |parts|
  {
    MapParts(PartEffect, parts)
  }

  /** Effect k is the effect of part k. */
  lemma EffectsOfAt(parts: seq<Bytes>, k: int)
    requires 0 <= k < |parts|
    ensures EffectsOf(parts)[k] == PartEffect(parts[k])
  {
    MapPartsAt(PartEffect, parts, k);
  }

  /** The fields after applying the effects in order: each SetField overwrites its name. */
  function FieldsOf(es: seq<Effect>): map<Bytes, Bytes> {
    if es == [] then map[]
    else
      var before := FieldsOf(es[..|es| - 1]);
      match es[|es| - 1]
      case SetField(n, v) => before[n := v]
      case _ => before
  }

  /** The upload after applying the effects in order: each SetFile replaces it. */
  function FileOf(es: seq<Effect>): Option<Bytes> {
    if es == [] then None
    else
      match es[|es| - 1]
      case SetFile(d) => Some(d)
      case _ => FileOf(es[..|es| - 1])
  }

  /** The effects of a request: one per part of the body, none without a boundary. */
  function BodyEffects(contentType: Bytes, body: Bytes): seq<Effect> {
    match Boundary(contentType)
    case None => []
    case Some(b) => EffectsOf(SplitOn(body, Dash2 + b))
  }

  /**
   * The body of the reader's loop for one part: each early return is one of
   * the source's `continue`s.
   */
  method ReadPart(part: Bytes) returns (effect: Effect)
    ensures effect == PartEffect(part)
  {
    if part == [] || IsClosing(Strip(part)) {
      return Skip;
    }
    var sepAt := FindFrom(part, CRLFCRLF, 0);
    if sepAt.None? {
      return Skip;
    }
    var headerData := part[..sepAt.value];
    var partBody := part[sepAt.value + 4..];
    if |partBody| >= 2 && partBody[|partBody| - 2..] == CRLF {
      partBody := partBody[..|partBody| - 2];
    }
    assert partBody == DropCrlf(part[sepAt.value + 4..]);
    PartEffectRoutes(part, sepAt.value);
    var name := FieldName(headerData);
    if name.None? {
      return Skip;
    }
    if FindFrom(headerData, FilenameKey, 0).Some? {
      effect := SetFile(partBody);
    } else {
      effect := SetField(name.value, partBody);
    }
  }

  /**
   * _parse_multipart: the form fields and the uploaded file's bytes (None
   * when no part is a file). Field values stay bytes.
   */
  method ParseMultipart(contentType: Bytes, body: Bytes) returns (fields: map<Bytes, Bytes>, fileData: Option<Bytes>)
    ensures Boundary(contentType).None? ==> fields == map[] && fileData == None
    ensures fields == FieldsOf(BodyEffects(contentType, body))
    ensures fileData == FileOf(BodyEffects(contentType, body))
  {
    var boundary := Boundary(contentType);
    if boundary.None? {
      return map[], None;
    }
    fields := map[];
    fileData := None;
    var parts := SplitOn(body, Dash2 + boundary.value);
    for k := 0 to |parts|
      invariant fields == FieldsOf(EffectsOf(parts[..k]))
      invariant fileData == FileOf(EffectsOf(parts[..k]))
    {
      var effect := ReadPart(parts[k]);
      EffectsOfPrefix(parts, k);
      ApplyOne(EffectsOf(parts[..k]), effect);
      match effect
      case Skip =>
      case SetField(name, value) => fields := fields[name := value];
      case SetFile(data) => fileData := Some(data);
    }
    assert parts[..|parts|] == parts;
  }

  /** The effects of one part more. */
  lemma EffectsOfPrefix(parts: seq<Bytes>, k: int)
    requires 0 <= k < |parts|
    ensures EffectsOf(parts[..k + 1]) == EffectsOf(parts[..k]) + [PartEffect(parts[k])]
  {
    assert parts[..k + 1] == parts[..k] + [parts[k]];
    MapPartsConcat(PartEffect, parts[..k], [parts[k]]);
    assert MapParts(PartEffect, [parts[k]]) == [PartEffect(parts[k])];
  }

  /** Applying one more effect. */
  lemma ApplyOne(done: seq<Effect>, e: Effect)
    ensures FieldsOf(done + [e]) == if e.SetField? then FieldsOf(done)[e.name := e.value] else FieldsOf(done)
    ensures FileOf(done + [e]) == if e.SetFile? then Some(e.data) else FileOf(done)
  {
    assert (done + [e])[..|done|] == done;
  }

  /** No later effect sets the field that effect k sets. */
  ghost predicate LastFieldFor(es: seq<Effect>, k: int)
    requires 0 <= k < |es| && es[k].SetField?
  {
    forall l :: k < l < |es| ==> !(es[l].SetField? && es[l].name == es[k].name)
  }

  /**
   * A name is a field exactly when some part sets it, and its value is the
   * one the last such part carries; nothing else enters the fields.
   */
  lemma {:induction false} FieldsAreLastSettings(es: seq<Effect>)
    ensures forall n :: n in FieldsOf(es) <==> exists k :: 0 <= k < |es| && es[k].SetField? && es[k].name == n
    ensures forall k :: 0 <= k < |es| && es[k].SetField? && LastFieldFor(es, k) ==>
      FieldsOf(es)[es[k].name] == es[k].value
  {
    if es != [] {
      var init := es[..|es| - 1];
      var last := es[|es| - 1];
      FieldsAreLastSettings(init);
      forall n ensures n in FieldsOf(es) <==> exists k :: 0 <= k < |es| && es[k].SetField? && es[k].name == n {
        if n in FieldsOf(es) && !(last.SetField? && last.name == n) {
          assert n in FieldsOf(init);
          var k :| 0 <= k < |init| && init[k].SetField? && init[k].name == n;
          assert es[k] == init[k];
        }
        if exists k :: 0 <= k < |es| && es[k].SetField? && es[k].name == n {
          var k :| 0 <= k < |es| && es[k].SetField? && es[k].name == n;
          if k < |init| {
            assert init[k] == es[k];
          }
        }
      }
      forall k | 0 <= k < |es| && es[k].SetField? && LastFieldFor(es, k)
        ensures FieldsOf(es)[es[k].name] == es[k].value
      {
        if k < |init| {
          assert init[k] == es[k];
          assert LastFieldFor(init, k);
          assert !(last.SetField? && last.name == es[k].name);
        }
      }
    }
  }

  /**
   * There is no upload exactly when no part is a file, and otherwise it is
   * the payload of the last file part.
   */
  lemma {:induction false} FileIsLastUpload(es: seq<Effect>)
    ensures FileOf(es).None? <==> forall k :: 0 <= k < |es| ==> !es[k].SetFile?
    ensures forall k :: 0 <= k < |es| && es[k].SetFile? && (forall l :: k < l < |es| ==> !es[l].SetFile?) ==>
      FileOf(es) == Some(es[k].data)
  {
    if es != [] {
      var init := es[..|es| - 1];
      FileIsLastUpload(init);
      assert forall k :: 0 <= k < |init| ==> init[k] == es[k];
    }
  }

  /** One form entry as a browser submits it. */
  datatype FormItem = FieldItem(name: Bytes, value: Bytes) | FileItem(name: Bytes, filename: Bytes, data: Bytes)

  /** "\r\nContent-Disposition: form-data; name=\"": the start of every encoded part. */
  const HeaderLead: Bytes := [13, 10, 67, 111, 110, 116, 101, 110, 116, 45, 68, 105, 115, 112, 111, 115, 105, 116,
                              105, 111, 110, 58, 32, 102, 111, 114, 109, 45, 100, 97, 116, 97, 59, 32, 110, 97,
                              109, 101, 61, 34]
  /** "\"; filename=\"" */
  const FilenameMid: Bytes := [34, 59, 32, 102, 105, 108, 101, 110, 97, 109, 101, 61, 34]
  /** "multipart/form-data; boundary=" */
  const MultipartPrefix: Bytes := [109, 117, 108, 116, 105, 112, 97, 114, 116, 47, 102, 111, 114, 109, 45, 100, 97,
                                   116, 97, 59, 32, 98, 111, 117, 110, 100, 97, 114, 121, 61]

  /** The Content-Type header of a form posted with boundary b. */
  function ContentTypeFor(b: Bytes): Bytes {
    MultipartPrefix + b
  }

  /** The headers of an encoded item, from the "\r\n" that follows the delimiter. */
  function ItemHeader(it: FormItem): Bytes {
    match it
    case FieldItem(name, _) => HeaderLead + name + [Quote]
    case FileItem(name, filename, _) => HeaderLead + name + FilenameMid + filename + [Quote]
  }

  function ItemPayload(it: FormItem): Bytes {
    match it
    case FieldItem(_, value) => value
    case FileItem(_, _, data) => data
  }

  /** An encoded item: headers, a blank line, the payload and the "\r\n" before the next delimiter. */
  function EncodeItem(it: FormItem): Bytes {
    ItemHeader(it) + CRLFCRLF + ItemPayload(it) + CRLF
  }

  function Encoded(items: seq<FormItem>): (parts: seq<Bytes>)
    ensures |parts| == |items| && forall k :: 0 <= k < |items| ==> parts[k] == EncodeItem(items[k])
  {
    if items == [] then [] else [EncodeItem(items[0])] + Encoded(items[1..])
  }

  /** A form body: every item after "--" + b, then the closing "--" + b + "--\r\n". */
  function EncodeBody(b: Bytes, items: seq<FormItem>): Bytes
    requires |b| >= 1
  {
    JoinWith([[]] + Encoded(items) + [Dash2 + CRLF], Dash2 + b)
  }

  /** What the item should do to the reader's result. */
  function Intended(it: FormItem): Effect {
    match it
    case FieldItem(name, value) => SetField(name, value)
    case FileItem(_, _, data) => SetFile(data)
  }

  function IntendedAll(items: seq<FormItem>): (es: seq<Effect>)
    ensures |es| == |items| && forall k :: 0 <= k < |items| ==> es[k] == Intended(items[k])
  {
    if items == [] then [] else [Intended(items[0])] + IntendedAll(items[1..])
  }

  /**
   * The items this encoding can carry: names are non-empty and free of
   * quotes, '=' and carriage returns, file names free of quotes and carriage
   * returns, and (as MIME requires of the boundary) the delimiter "--" + b
   * does not occur inside an encoded item.
   */
  ghost predicate Encodable(b: Bytes, it: FormItem) {
    Readable(it) && !Occurs(EncodeItem(it), Dash2 + b)
  }

  /** The header constraints of Encodable. */
  predicate Readable(it: FormItem) {
    && |it.name| >= 1
    && Quote !in it.name && 61 !in it.name && 13 !in it.name
    && (it.FileItem? ==> Quote !in it.filename && 13 !in it.filename)
  }

  /** A boundary the reader can find: one or more bytes other than whitespace and ';'. */
  predicate IsBoundaryText(b: Bytes) {
    |b| >= 1 && forall k :: 0 <= k < |b| ==> IsBoundaryByte(b[k])
  }

  ghost predicate AllEncodable(b: Bytes, items: seq<FormItem>) {
    AllReadable(items) && NoItemHoldsDelimiter(b, items)
  }

  predicate AllReadable(items: seq<FormItem>) {
    forall k :: 0 <= k < |items| ==> Readable(items[k])
  }

  ghost predicate NoItemHoldsDelimiter(b: Bytes, items: seq<FormItem>) {
    forall k :: 0 <= k < |items| ==> !Occurs(EncodeItem(items[k]), Dash2 + b)
  }

  /** Within the first n bytes, an occurrence in s is an occurrence in s[..n]. */
  lemma StartsAtWithin(s: Bytes, n: int, j: int, key: Bytes)
    requires 0 <= j && j + |key| <= n <= |s|
    ensures StartsAt(s, j, key) <==> StartsAt(s[..n], j, key)
  {
    assert s[..n][j..j + |key|] == s[j..j + |key|];
  }

  /** "boundary=" occurs in "multipart/form-data; boundary=" only at its end. */
  lemma MultipartPrefixFacts()
    ensures forall j :: 0 <= j < 21 ==> !StartsAt(MultipartPrefix, j, BoundaryKey)
    ensures MultipartPrefix[21..30] == BoundaryKey
  {
    forall j | 0 <= j < 21 ensures !StartsAt(MultipartPrefix, j, BoundaryKey) {
      assert MultipartPrefix[j..j + 9][0] == MultipartPrefix[j] && MultipartPrefix[j..j + 9][1] == MultipartPrefix[j + 1];
    }
  }

  /** The bytes of the encoded header lead that the reader's searches meet. */
  lemma HeaderLeadFacts()
    ensures |HeaderLead| == 40 && HeaderLead[0] == 13 && HeaderLead[1] == 10 && HeaderLead[2] == 67
    ensures HeaderLead[34..40] == NameKey
    ensures forall i :: 1 <= i < 40 ==> HeaderLead[i] != 13
    ensures forall i :: 0 <= i < 38 ==> HeaderLead[i] != 61
    ensures HeaderLead[30] == 116 && HeaderLead[39] == Quote
  {
  }

  /** name=" occurs in the header lead only at its end. */
  lemma NoEarlyNameKey()
    ensures forall j :: 0 <= j < 34 ==> !StartsAt(HeaderLead, j, NameKey)
  {
    forall j | 0 <= j < 34 ensures !StartsAt(HeaderLead, j, NameKey) {
      assert HeaderLead[j..j + 6][0] == HeaderLead[j] && HeaderLead[j..j + 6][1] == HeaderLead[j + 1];
    }
  }

  /** The content type written for boundary b names b. */
  lemma BoundaryOfContentType(b: Bytes)
    requires |b| >= 1 && forall k :: 0 <= k < |b| ==> IsBoundaryByte(b[k])
    ensures Boundary(ContentTypeFor(b)) == Some(b)
  {
    var ct := ContentTypeFor(b);
    assert ct[..30] == MultipartPrefix;
    MultipartPrefixFacts();
    forall j | 0 <= j < 21 ensures !BoundaryMatchAt(ct, j) {
      StartsAtWithin(ct, 30, j, BoundaryKey);
    }
    StartsAtWithin(ct, 30, 21, BoundaryKey);
    assert ct[30] == b[0];
    assert BoundaryMatchAt(ct, 21);
    var r := FirstBoundaryMatch(ct, 0);
    assert r == Some(21);
    var n := BoundaryRun(ct, 30);
    assert ct[30..30 + n] == b;
  }

  /**
   * Split undoes Join when no part contains the separator and no part before
   * the last ends in a byte of the separator (so no occurrence straddles a
   * part and the separator after it).
   */
  lemma {:induction false} SplitJoinWith(parts: seq<Bytes>, sep: Bytes)
    requires |sep| > 0 && |parts| >= 1
    requires forall k :: 0 <= k < |parts| ==> !Occurs(parts[k], sep)
    requires forall k :: 0 <= k < |parts| - 1 ==> parts[k] == [] || parts[k][|parts[k]| - 1] !in sep
    ensures SplitOn(JoinWith(parts, sep), sep) == parts
  {
    var s := JoinWith(parts, sep);
    if |parts| > 1 {
      var p := parts[0];
      var rest := JoinWith(parts[1..], sep);
      assert s == p + sep + rest;
      assert s[|p|..|p| + |sep|] == sep;
      assert StartsAt(s, |p|, sep);
      forall j | 0 <= j < |p| ensures !StartsAt(s, j, sep) {
        if j + |sep| <= |p| {
          assert p[j..j + |sep|] == s[j..j + |sep|];
          assert !StartsAt(p, j, sep);
        } else if j + |sep| <= |s| {
          var i := |p| - 1 - j;
          assert sep[i] in sep;
          assert s[j..j + |sep|][i] == s[|p| - 1] == p[|p| - 1];
          assert s[j..j + |sep|][i] != sep[i];
        }
      }
      assert FindFrom(s, sep, 0) == Some(|p|);
      assert s[|p| + |sep|..] == rest;
      SplitJoinWith(parts[1..], sep);
    }
  }

  /** What follows the name in an item's headers: the closing quote, or the file name clause. */
  function ItemTail(it: FormItem): Bytes {
    if it.FieldItem? then [Quote] else FilenameMid + it.filename + [Quote]
  }

  lemma FilenameMidFacts()
    ensures |FilenameMid| == 13 && FilenameMid[0] == Quote && FilenameMid[3..13] == FilenameKey
    ensures forall i :: 0 <= i < 13 ==> FilenameMid[i] != 13
  {
  }

  /** The tail after an item's name holds no carriage return. */
  lemma TailHasNoCr(it: FormItem)
    requires it.FileItem? ==> 13 !in it.filename
    ensures |ItemTail(it)| >= 1 && ItemTail(it)[0] == Quote
    ensures forall k :: 0 <= k < |ItemTail(it)| ==> ItemTail(it)[k] != 13
  {
    var tail := ItemTail(it);
    if it.FileItem? {
      FilenameMidFacts();
      forall k | 0 <= k < |tail| ensures tail[k] != 13 {
        if k < 13 {
          assert tail[k] == FilenameMid[k];
        } else if k < 13 + |it.filename| {
          assert tail[k] == it.filename[k - 13];
        }
      }
    }
  }

  /** How an encoded item is laid out. */
  lemma ItemShape(it: FormItem)
    ensures ItemHeader(it) == HeaderLead + it.name + ItemTail(it)
    ensures EncodeItem(it) == ItemHeader(it) + CRLFCRLF + (ItemPayload(it) + CRLF)
    ensures |EncodeItem(it)| >= 3 && EncodeItem(it)[0] == 13 && EncodeItem(it)[1] == 10 && EncodeItem(it)[2] == 67
  {
    HeaderLeadFacts();
    var h := ItemHeader(it);
    var tail := ItemTail(it);
    if it.FieldItem? {
      assert h == HeaderLead + it.name + tail;
    } else {
      assert h == HeaderLead + it.name + tail;
    }
    var e := EncodeItem(it);
    assert e == h + CRLFCRLF + (ItemPayload(it) + CRLF);
    assert e[..|h|] == h;
    assert h[..40] == HeaderLead;
    assert e[0] == HeaderLead[0] && e[1] == HeaderLead[1] && e[2] == HeaderLead[2];
  }

  /** An encoded field's headers lack filename="; an encoded file's headers have it. */
  lemma FilenameClause(it: FormItem)
    requires 61 !in it.name
    ensures FindFrom(ItemHeader(it), FilenameKey, 0).Some? <==> it.FileItem?
  {
    var h := ItemHeader(it);
    if it.FieldItem? {
      NoFilenameInFieldHeader(h, it.name);
    } else {
      FilenameMidFacts();
      var at := 40 + |it.name| + 3;
      assert h == HeaderLead + it.name + FilenameMid + it.filename + [Quote];
      assert h[at..at + 10] == FilenameMid[3..13];
      assert StartsAt(h, at, FilenameKey);
    }
  }

  /** An encoded item is read back as the item: its name and payload, a field or the upload. */
  lemma ItemReadBack(it: FormItem)
    requires Readable(it)
    ensures PartEffect(EncodeItem(it)) == Intended(it)
  {
    var part := EncodeItem(it);
    var h := ItemHeader(it);
    var payload := ItemPayload(it);
    ItemShape(it);
    TailHasNoCr(it);
    NotClosing(part);
    HeaderEndsAtBlankLine(part, h, it.name, ItemTail(it), payload + CRLF);
    assert part[..|h|] == h;
    assert part[|h| + 4..] == payload + CRLF;
    assert DropCrlf(payload + CRLF) == payload;
    NameOfHeader(h, it.name, ItemTail(it));
    FilenameClause(it);
  }

  /** A part beginning with "\r\nC" is neither empty nor closing. */
  lemma NotClosing(part: Bytes)
    requires |part| >= 3 && part[0] == 13 && part[1] == 10 && part[2] == 67
    ensures part != [] && !IsClosing(Strip(part))
  {
    StripTrimsEnds(part);
    assert SkipSpaces(part, 0) == 2;
    assert Strip(part)[0] == 67;
  }

  /** The first "\r\n\r\n" of an encoded item ends its headers. */
  lemma HeaderEndsAtBlankLine(part: Bytes, h: Bytes, name: Bytes, tail: Bytes, rest: Bytes)
    requires h == HeaderLead + name + tail && 13 !in name
    requires forall k :: 0 <= k < |tail| ==> tail[k] != 13
    requires part == h + CRLFCRLF + rest
    ensures FindFrom(part, CRLFCRLF, 0) == Some(|h|)
  {
    HeaderLeadFacts();
    forall j | 1 <= j < |h| ensures h[j] != 13 {
      if j < 40 {
        assert h[j] == HeaderLead[j];
      } else if j < 40 + |name| {
        assert h[j] == name[j - 40];
      } else {
        assert h[j] == tail[j - 40 - |name|];
      }
    }
    assert part[|h|..|h| + 4] == CRLFCRLF;
    assert StartsAt(part, |h|, CRLFCRLF);
    forall j | 0 <= j < |h| ensures !StartsAt(part, j, CRLFCRLF) {
      assert part[j] == h[j];
      assert part[2] == h[2] == 67;
      if j + 4 <= |part| {
        assert part[j..j + 4][0] == part[j] && part[j..j + 4][2] == part[j + 2];
      }
    }
  }

  /** The name the reader finds in an encoded item's headers is the item's name. */
  lemma NameOfHeader(h: Bytes, name: Bytes, tail: Bytes)
    requires h == HeaderLead + name + tail && |name| >= 1 && Quote !in name
    requires |tail| >= 1 && tail[0] == Quote
    ensures FieldName(h) == Some(name)
  {
    HeaderLeadFacts();
    NoEarlyNameKey();
    assert h[..40] == HeaderLead;
    forall j | 0 <= j < 34 ensures !NameMatchAt(h, j) {
      StartsAtWithin(h, 40, j, NameKey);
    }
    StartsAtWithin(h, 40, 34, NameKey);
    var n := NonQuoteRun(h, 40);
    assert h[40 + |name|] == tail[0];
    assert n == |name|;
    assert NameMatchAt(h, 34);
    assert FirstNameMatch(h, 0) == Some(34);
    assert h[40..40 + n] == name;
  }

  /** A field item's headers never mention filename=". */
  lemma NoFilenameInFieldHeader(h: Bytes, name: Bytes)
    requires h == HeaderLead + name + [Quote] && 61 !in name
    ensures FindFrom(h, FilenameKey, 0).None?
  {
    HeaderLeadFacts();
    forall i | 0 <= i < |h| && i != 38 ensures h[i] != 61 {
      if i < 40 {
        assert h[i] == HeaderLead[i];
      } else if i < 40 + |name| {
        assert h[i] == name[i - 40];
      }
    }
    forall j | 0 <= j ensures !StartsAt(h, j, FilenameKey) {
      if j + 10 <= |h| {
        assert h[j..j + 10][8] == h[j + 8] && h[j..j + 10][0] == h[j];
        assert h[30] == HeaderLead[30];
      }
    }
  }

  /** Skips at either end do not change the fields or the upload. */
  lemma {:induction false} SkipsAreInert(es: seq<Effect>)
    ensures FieldsOf([Skip] + es + [Skip]) == FieldsOf(es)
    ensures FileOf([Skip] + es + [Skip]) == FileOf(es)
  {
    ApplyOne([Skip] + es, Skip);
    LeadingSkipInert(es);
  }

  lemma {:induction false} LeadingSkipInert(es: seq<Effect>)
    ensures FieldsOf([Skip] + es) == FieldsOf(es)
    ensures FileOf([Skip] + es) == FileOf(es)
  {
    if es != [] {
      var init := es[..|es| - 1];
      LeadingSkipInert(init);
      assert [Skip] + es == ([Skip] + init) + [es[|es| - 1]];
      ApplyOne([Skip] + init, es[|es| - 1]);
      ApplyOne(init, es[|es| - 1]);
      assert init + [es[|es| - 1]] == es;
    }
  }

  /** The parts of an encoded body: the empty preamble, one per item, the closing "--\r\n". */
  function BodyParts(items: seq<FormItem>): seq<Bytes> {
    [[]] + Encoded(items) + [Dash2 + CRLF]
  }

  /** A delimiter built from boundary bytes holds no line feed. */
  lemma DelimiterHasNoLf(b: Bytes)
    requires forall k :: 0 <= k < |b| ==> IsBoundaryByte(b[k])
    ensures 10 !in Dash2 + b
  {
    var sep := Dash2 + b;
    forall k | 0 <= k < |sep| ensures sep[k] != 10 {
      if k >= 2 {
        assert sep[k] == b[k - 2];
      }
    }
  }

  /** An encoded item ends in the line feed of its closing "\r\n". */
  lemma EncodedItemEndsInLf(it: FormItem)
    ensures |EncodeItem(it)| >= 1 && EncodeItem(it)[|EncodeItem(it)| - 1] == 10
  {
  }

  /** No part of an encoded body holds the delimiter. */
  lemma BodyPartsLackDelimiter(b: Bytes, items: seq<FormItem>)
    requires IsBoundaryText(b) && NoItemHoldsDelimiter(b, items)
    ensures forall k :: 0 <= k < |BodyParts(items)| ==> !Occurs(BodyParts(items)[k], Dash2 + b)
  {
    var sep := Dash2 + b;
    var parts := BodyParts(items);
    forall k | 0 <= k < |parts| ensures !Occurs(parts[k], sep) {
      if k == |parts| - 1 {
        assert parts[k] == Dash2 + CRLF;
        ClosingHasNoDelimiter(b);
      } else if k > 0 {
        assert parts[k] == EncodeItem(items[k - 1]);
      } else {
        assert parts[k] == [];
      }
    }
  }

  /** Every part of an encoded body but the last ends in a byte outside the delimiter. */
  lemma BodyPartsEndOutsideDelimiter(b: Bytes, items: seq<FormItem>)
    requires forall k :: 0 <= k < |b| ==> IsBoundaryByte(b[k])
    ensures forall k :: 0 <= k < |BodyParts(items)| - 1 ==>
      BodyParts(items)[k] == [] || BodyParts(items)[k][|BodyParts(items)[k]| - 1] !in Dash2 + b
  {
    var parts := BodyParts(items);
    DelimiterHasNoLf(b);
    forall k | 0 <= k < |parts| - 1 ensures parts[k] == [] || parts[k][|parts[k]| - 1] !in Dash2 + b {
      if k > 0 {
        assert parts[k] == EncodeItem(items[k - 1]);
        EncodedItemEndsInLf(items[k - 1]);
        assert parts[k][|parts[k]| - 1] == 10;
      }
    }
  }

  /** Splitting an encoded body on its delimiter gives back its parts. */
  lemma SplitEncodedBody(b: Bytes, items: seq<FormItem>)
    requires IsBoundaryText(b) && NoItemHoldsDelimiter(b, items)
    ensures SplitOn(EncodeBody(b, items), Dash2 + b) == BodyParts(items)
  {
    var parts := BodyParts(items);
    assert EncodeBody(b, items) == JoinWith(parts, Dash2 + b);
    BodyPartsLackDelimiter(b, items);
    BodyPartsEndOutsideDelimiter(b, items);
    SplitJoinWith(parts, Dash2 + b);
  }

  /** The closing "--\r\n" part is skipped. */
  lemma ClosingPartSkipped()
    ensures PartEffect(Dash2 + CRLF) == Skip
  {
    var c := Dash2 + CRLF;
    assert c[0] == 45 && c[1] == 45 && c[2] == 13 && c[3] == 10 && |c| == 4;
    assert SkipSpaces(c, 0) == 0;
    assert TrimEnd(c, 0, 4) == TrimEnd(c, 0, 3) == TrimEnd(c, 0, 2) == 2;
    assert Strip(c) == c[..2] == Dash2;
  }

  /** The encoded items are read back as the items. */
  lemma {:induction false} EffectsOfEncoded(items: seq<FormItem>)
    requires AllReadable(items)
    ensures EffectsOf(Encoded(items)) == IntendedAll(items)
  {
    if items != [] {
      var first := items[0];
      EffectsOfEncoded(items[1..]);
      assert Encoded(items) == [EncodeItem(first)] + Encoded(items[1..]);
      MapPartsConcat(PartEffect, [EncodeItem(first)], Encoded(items[1..]));
      ItemReadBack(first);
      assert IntendedAll(items) == [Intended(first)] + IntendedAll(items[1..]);
    }
  }


  /** The parts of an encoded body act as the items, between two skipped parts. */
  lemma EffectsOfBodyParts(items: seq<FormItem>)
    requires AllReadable(items)
    ensures EffectsOf(BodyParts(items)) == [Skip] + IntendedAll(items) + [Skip]
  {
    var closing: seq<Bytes> := [Dash2 + CRLF];
    MapPartsConcat(PartEffect, [[]] + Encoded(items), closing);
    MapPartsConcat(PartEffect, [[]], Encoded(items));
    EffectsOfEncoded(items);
    ClosingPartSkipped();
    assert EffectsOf(closing) == [Skip];
    assert EffectsOf([[]]) == [Skip];
  }

  /**
   * Reading a form encoded with boundary b gives one effect per item,
   * between the skipped empty preamble and the skipped closing part: every
   * field is recovered with its value (the last one for a repeated name) and
   * the upload is the last file item's data.
   */
  lemma FormRoundTrip(b: Bytes, items: seq<FormItem>)
    requires IsBoundaryText(b) && AllEncodable(b, items)
    ensures BodyEffects(ContentTypeFor(b), EncodeBody(b, items)) == [Skip] + IntendedAll(items) + [Skip]
    ensures FieldsOf(BodyEffects(ContentTypeFor(b), EncodeBody(b, items))) == FieldsOf(IntendedAll(items))
    ensures FileOf(BodyEffects(ContentTypeFor(b), EncodeBody(b, items))) == FileOf(IntendedAll(items))
  {
    BoundaryOfContentType(b);
    SplitEncodedBody(b, items);
    EffectsOfBodyParts(items);
    SkipsAreInert(IntendedAll(items));
  }

  /** The closing part "--\r\n" holds no delimiter. */
  lemma ClosingHasNoDelimiter(b: Bytes)
    requires |b| >= 1 && IsBoundaryByte(b[0])
    ensures !Occurs(Dash2 + CRLF, Dash2 + b)
  {
    var sep := Dash2 + b;
    var c := Dash2 + CRLF;
    assert sep[0] == 45 && sep[1] == 45 && sep[2] == b[0];
    assert c == [45, 45, 13, 10];
    forall j | 0 <= j ensures !StartsAt(c, j, sep) {
      if j + |sep| <= |c| {
        assert c[j..j + |sep|][0] == c[j] && c[j..j + |sep|][1] == c[j + 1] && c[j..j + |sep|][2] == c[j + 2];
      }
    }
  }
}
