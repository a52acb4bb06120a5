/**
 * The admin dashboard's client logic: the records arrive as parsed JSON
 * objects, are filtered in the browser by a search term and a category, and
 * are drawn as a table whose headers come from the first record's keys.
 * JSON values are modelled as the JavaScript values the script handles;
 * reading a property that is absent gives `undefined`.
 */
module Admin {
  import opened Wrappers
  import opened Text

  // ---------------------------------------------------------------------
  // JavaScript values
  // ---------------------------------------------------------------------

  /** A JSON value as the script sees it, with numbers restricted to integers. */
  datatype JsValue = Undefined | Null | Bool(b: bool) | Num(n: int) | Str(s: string)

  /** A parsed JSON object: its properties in key order. */
  datatype JsObject = JsObject(entries: seq<(string, JsValue)>)

  /** `o[key]`: the value of the first property named `key`, `undefined` when there is none. */
  function Get(o: JsObject, key: string): JsValue
    decreases |o.entries|
  {
    if o.entries == [] then Undefined
    else if o.entries[0].0 == key then o.entries[0].1
    else Get(JsObject(o.entries[1..]), key)
  }

  /** A property read gives `undefined` exactly when no property of that name holds a defined value first. */
  lemma {:induction false} GetFindsEntry(o: JsObject, key: string)
    ensures (forall i :: 0 <= i < |o.entries| ==> o.entries[i].0 != key) ==> Get(o, key) == Undefined
    ensures Get(o, key) != Undefined ==> exists i :: 0 <= i < |o.entries| && o.entries[i] == (key, Get(o, key))
    decreases |o.entries|
  {
    if o.entries != [] && o.entries[0].0 != key {
      var tail := JsObject(o.entries[1..]);
      GetFindsEntry(tail, key);
      if Get(o, key) != Undefined {
        var i :| 0 <= i < |tail.entries| && tail.entries[i] == (key, Get(o, key));
        assert o.entries[i + 1] == (key, Get(o, key));
      }
    }
  }

  /** `Object.keys(o)`. */
  function Keys(o: JsObject): (ks: seq<string>)
    ensures |ks| == |o.entries|
    ensures forall i :: 0 <= i < |ks| ==> ks[i] == o.entries[i].0
  {
    seq(|o.entries|, i requires 0 <= i < |o.entries| => o.entries[i].0)
  }

  /** JavaScript truthiness. */
  predicate Truthy(v: JsValue) {
    match v
    case Undefined => false
    case Null => false
    case Bool(b) => b
    case Num(n) => n != 0
    case Str(s) => s != ""
  }

  /** `String(v)`, which is also what `${v}` in a template literal produces. */
  function JsString(v: JsValue): (s: string)
    ensures v.Str? ==> s == v.s
    ensures v == Undefined ==> s == "undefined"
    ensures v == Null ==> s == "null"
  {
    match v
    case Undefined => "undefined"
    case Null => "null"
    case Bool(b) => if b then "true" else "false"
    case Num(n) => IntToDecimal(n)
    case Str(s) => s
  }

  /**
   * How the dashboard reads a record: the property names of a person's
   * first, middle and last name, and whether the photo path rewrite accepts
   * `/` as well as `\` on either side of `uploads`.
   */
  datatype Reading = Reading(first: string, middle: string, last: string, anySeparator: bool)

  /** What the dashboard script does: snake-case names, and only `\uploads\` is rewritten. */
  const ScriptReading: Reading := Reading("first_name", "middle_name", "last_name", false)

  /** The names under which the server stores and sends a person's names, and a rewrite for either separator. */
  const CorrectedReading: Reading := Reading("firstName", "middleName", "lastName", true)

  // ---------------------------------------------------------------------
  // Filtering
  // ---------------------------------------------------------------------

  /** `${first} ${middle || ''} ${last}`. */
  function SearchName(reg: JsObject, reading: Reading): string {
    var middle := Get(reg, reading.middle);
    JsString(Get(reg, reading.first)) + " " + (if Truthy(middle) then JsString(middle) else "") + " "
    + JsString(Get(reg, reading.last))
  }

  /**
   * The `matchSearch` disjunction, evaluated left to right: the name, then
   * `reg.email.toLowerCase()`, then `reg.whoareyou.toLowerCase()`. Calling
   * `toLowerCase` on something that is not a string throws a TypeError,
   * which is `None`; a disjunct that is never reached cannot throw.
   */
  function MatchSearch(reg: JsObject, term: string, reading: Reading): Option<bool> {
    if Includes(ToLower(SearchName(reg, reading)), term) then Some(true)
    else match Get(reg, "email")
      case Str(email) =>
        if Includes(ToLower(email), term) then Some(true)
        else (match Get(reg, "whoareyou")
          case Str(category) => Some(Includes(ToLower(category), term))
          case _ => None)
      case _ => None
  }

  /** `professionValue === '' || reg.whoareyou === professionValue`. */
  predicate MatchProfession(reg: JsObject, profession: string) {
    profession == "" || Get(reg, "whoareyou") == Str(profession)
  }

  /** The filter callback: the search match is computed first, so its TypeError wins. */
  function Keep(reg: JsObject, term: string, profession: string, reading: Reading): Option<bool> {
    match MatchSearch(reg, term, reading)
    case None => None
    case Some(m) => Some(m && MatchProfession(reg, profession))
  }

  /** `all.filter(...)`: the kept records in their order, or `None` when the callback throws on some record. */
  function FilterRecords(all: seq<JsObject>, term: string, profession: string, reading: Reading): Option<seq<JsObject>>
    decreases |all|
  {
    if all == [] then Some([])
    else match Keep(all[0], term, profession, reading)
      case None => None
      case Some(k) =>
        match FilterRecords(all[1..], term, profession, reading)
        case None => None
        case Some(rest) => Some((if k then [all[0]] else []) + rest)
  }

  /** `needle` occurs somewhere in `hay`. */
  ghost predicate Contains(hay: string, needle: string) {
    exists i :: OccursAt(hay, needle, i)
  }

  /**
   * When a record is kept, stated without evaluation order: the term occurs
   * in the lower-cased name text, email or category, and the category
   * filter is empty or equal to the category.
   */
  ghost predicate KeptSpec(reg: JsObject, term: string, profession: string, reading: Reading) {
    && (|| Contains(ToLower(SearchName(reg, reading)), term)
        || (Get(reg, "email").Str? && Contains(ToLower(Get(reg, "email").s), term))
        || (Get(reg, "whoareyou").Str? && Contains(ToLower(Get(reg, "whoareyou").s), term)))
    && (profession == "" || Get(reg, "whoareyou") == Str(profession))
  }

  /** The records of `all` that satisfy `KeptSpec`, in order. */
  ghost function SpecFilter(all: seq<JsObject>, term: string, profession: string, reading: Reading): seq<JsObject>
    decreases |all|
  {
    if all == [] then []
    else (if KeptSpec(all[0], term, profession, reading) then [all[0]] else []) + SpecFilter(all[1..], term, profession, reading)
  }

  /** A record the callback can judge: its email and category are strings. */
  predicate WellFormed(reg: JsObject) {
    Get(reg, "email").Str? && Get(reg, "whoareyou").Str?
  }

  lemma KeepAgreesWithSpec(reg: JsObject, term: string, profession: string, reading: Reading)
    requires Keep(reg, term, profession, reading).Some?
    ensures Keep(reg, term, profession, reading).value == KeptSpec(reg, term, profession, reading)
  {
    IncludesIff(ToLower(SearchName(reg, reading)), term);
    if Get(reg, "email").Str? {
      IncludesIff(ToLower(Get(reg, "email").s), term);
    }
    if Get(reg, "whoareyou").Str? {
      IncludesIff(ToLower(Get(reg, "whoareyou").s), term);
    }
  }

  /** Whenever the filter completes, it keeps exactly the records `KeptSpec` describes, in order. */
  lemma {:induction false} FilterMeetsSpec(all: seq<JsObject>, term: string, profession: string, reading: Reading)
    requires FilterRecords(all, term, profession, reading).Some?
    ensures FilterRecords(all, term, profession, reading).value == SpecFilter(all, term, profession, reading)
    decreases |all|
  {
    if all != [] {
      KeepAgreesWithSpec(all[0], term, profession, reading);
      FilterMeetsSpec(all[1..], term, profession, reading);
    }
  }

  lemma KeepDefinedOnWellFormed(reg: JsObject, term: string, profession: string, reading: Reading)
    requires WellFormed(reg)
    ensures Keep(reg, term, profession, reading).Some?
  {
  }

  /** The filter never throws on records whose email and category are strings. */
  lemma {:induction false} FilterDefinedOnWellFormed(all: seq<JsObject>, term: string, profession: string, reading: Reading)
    requires forall k :: 0 <= k < |all| ==> WellFormed(all[k])
    ensures FilterRecords(all, term, profession, reading).Some?
    decreases |all|
  {
    if all != [] {
      assert forall k :: 0 <= k < |all| - 1 ==> all[1..][k] == all[k + 1];
      FilterDefinedOnWellFormed(all[1..], term, profession, reading);
      KeepDefinedOnWellFormed(all[0], term, profession, reading);
    }
  }

  /** A record whose name does not match and whose email is not a string makes the filter throw. */
  lemma {:induction false} FilterThrowsOnMissingEmail(all: seq<JsObject>, k: nat, term: string, profession: string, reading: Reading)
    requires k < |all| && !Includes(ToLower(SearchName(all[k], reading)), term) && !Get(all[k], "email").Str?
    ensures FilterRecords(all, term, profession, reading) == None
    decreases k
  {
    if k > 0 {
      assert all[1..][k - 1] == all[k];
      FilterThrowsOnMissingEmail(all[1..], k - 1, term, profession, reading);
    } else {
      assert MatchSearch(all[0], term, reading) == None;
    }
  }

  /** The result lists kept records only, every kept record of the input, in the input's order. */
  lemma {:induction false} SpecFilterIsOrderedSelection(all: seq<JsObject>, term: string, profession: string, reading: Reading)
    ensures IsSubsequence(SpecFilter(all, term, profession, reading), all)
    ensures forall x :: x in SpecFilter(all, term, profession, reading) <==> x in all && KeptSpec(x, term, profession, reading)
    decreases |all|
  {
    if all != [] {
      SpecFilterIsOrderedSelection(all[1..], term, profession, reading);
      var rest := SpecFilter(all[1..], term, profession, reading);
      if KeptSpec(all[0], term, profession, reading) {
        assert ([all[0]] + rest)[1..] == rest;
      } else {
        assert [] + rest == rest;
      }
      assert all == [all[0]] + all[1..];
    }
  }

  lemma FilterKeptHead(rs: seq<JsObject>, term: string, profession: string, reading: Reading)
    requires rs != [] && Keep(rs[0], term, profession, reading) == Some(true)
    requires FilterRecords(rs[1..], term, profession, reading) == Some(rs[1..])
    ensures FilterRecords(rs, term, profession, reading) == Some(rs)
  {
    assert [rs[0]] + rs[1..] == rs;
  }

  /** A list all of whose records the callback keeps is left as it is. */
  lemma {:induction false} FilterKeepsAllKept(rs: seq<JsObject>, term: string, profession: string, reading: Reading)
    requires forall k :: 0 <= k < |rs| ==> Keep(rs[k], term, profession, reading) == Some(true)
    ensures FilterRecords(rs, term, profession, reading) == Some(rs)
    decreases |rs|
  {
    if rs != [] {
      var rest := rs[1..];
      forall k | 0 <= k < |rest| ensures Keep(rest[k], term, profession, reading) == Some(true) {
        assert rest[k] == rs[k + 1];
      }
      FilterKeepsAllKept(rest, term, profession, reading);
      FilterKeptHead(rs, term, profession, reading);
    }
  }

  lemma {:induction false} FilterResultIsKept(all: seq<JsObject>, term: string, profession: string, reading: Reading)
    requires FilterRecords(all, term, profession, reading).Some?
    ensures var r := FilterRecords(all, term, profession, reading).value;
      forall k :: 0 <= k < |r| ==> Keep(r[k], term, profession, reading) == Some(true)
    decreases |all|
  {
    if all != [] {
      FilterResultIsKept(all[1..], term, profession, reading);
    }
  }

  /** Filtering a filtered list again with the same term and category changes nothing. */
  lemma FilterIdempotent(all: seq<JsObject>, term: string, profession: string, reading: Reading)
    requires FilterRecords(all, term, profession, reading).Some?
    ensures var r := FilterRecords(all, term, profession, reading).value;
      FilterRecords(r, term, profession, reading) == Some(r)
  {
    FilterResultIsKept(all, term, profession, reading);
    FilterKeepsAllKept(FilterRecords(all, term, profession, reading).value, term, profession, reading);
  }

  /** An empty search term with no category filter keeps every record, whatever its fields. */
  lemma EmptySearchKeepsAll(all: seq<JsObject>, reading: Reading)
    ensures FilterRecords(all, "", "", reading) == Some(all)
  {
    forall k | 0 <= k < |all| ensures Keep(all[k], "", "", reading) == Some(true) {
      IncludesEmpty(ToLower(SearchName(all[k], reading)));
    }
    FilterKeepsAllKept(all, "", "", reading);
  }

  /** The term cannot occur where one of its characters does not. */
  lemma MissingCharNotIncluded(hay: string, needle: string, j: nat)
    requires j < |needle| && HasNoChar(hay, needle[j])
    ensures !Includes(hay, needle)
  {
    IncludesIff(hay, needle);
    forall i | 0 <= i ensures !OccursAt(hay, needle, i) {
      if i + |needle| <= |hay| {
        assert hay[i..i + |needle|][j] == hay[i + j];
      }
    }
  }

  // ---------------------------------------------------------------------
  // Photo path and cells
  // ---------------------------------------------------------------------

  /** The text `\uploads\` that the rewrite looks for. */
  const Marker: string := "\\uploads\\"

  /** The index of the first line terminator of `s`, or `|s|` when it has none. */
  function FirstLineBreak(s: string): (n: nat)
    ensures n <= |s|
    ensures forall i :: 0 <= i < n ==> !IsLineTerminator(s[i])
    ensures n < |s| ==> IsLineTerminator(s[n])
    decreases |s|
  {
    if s == [] || IsLineTerminator(s[0]) then 0 else 1 + FirstLineBreak(s[1..])
  }

  /** The last index at which `needle` occurs in `hay`. */
  function LastOccurrence(hay: string, needle: string): (r: Option<nat>)
    requires needle != []
    ensures r.Some? ==> OccursAt(hay, needle, r.value) && forall q :: r.value < q ==> !OccursAt(hay, needle, q)
    ensures r.None? ==> forall q :: !OccursAt(hay, needle, q)
    decreases |hay|
  {
    if |hay| < |needle| then None
    else if hay[|hay| - |needle|..] == needle then Some(|hay| - |needle|)
    else
      var r := LastOccurrence(hay[..|hay| - 1], needle);
      DropLastKeepsOccurrences(hay, needle);
      r
  }

  /** When `needle` does not end `hay`, dropping the last character of `hay` loses no occurrence. */
  lemma DropLastKeepsOccurrences(hay: string, needle: string)
    requires needle != [] && |needle| <= |hay| && hay[|hay| - |needle|..] != needle
    ensures forall q :: OccursAt(hay, needle, q) <==> OccursAt(hay[..|hay| - 1], needle, q)
  {
    var front := hay[..|hay| - 1];
    assert hay[|hay| - |needle|..] == hay[|hay| - |needle|..|hay|];
    assert !OccursAt(hay, needle, |hay| - |needle|);
    forall q | OccursAt(hay, needle, q)
      ensures OccursAt(front, needle, q)
    {
      assert front[q..q + |needle|] == hay[q..q + |needle|];
    }
    forall q | OccursAt(front, needle, q)
      ensures OccursAt(hay, needle, q)
    {
      assert front[q..q + |needle|] == hay[q..q + |needle|];
    }
  }

  /**
   * `value.replace(/^.*\\uploads\\/, 'uploads/')`: `.` does not cross a line
   * terminator and `.*` is greedy, so the last `\uploads\` on the first line
   * and everything before it become `uploads/`; without one the path is kept.
   */
  function RewritePhotoPath(s: string): string {
    match LastOccurrence(s[..FirstLineBreak(s)], Marker)
    case None => s
    case Some(p) => "uploads/" + s[p + |Marker|..]
  }

  /** The regular expression matches `s` with `.*` covering exactly `s[..p]`. */
  ghost predicate RegexMatchAt(s: string, p: int) {
    OccursAt(s, Marker, p) && forall i :: 0 <= i < p ==> !IsLineTerminator(s[i])
  }

  lemma MarkerHasNoLineTerminator(i: nat)
    requires i < |Marker|
    ensures !IsLineTerminator(Marker[i])
  {
  }

  lemma RegexMatchInFirstLine(s: string, p: int)
    ensures RegexMatchAt(s, p) <==> OccursAt(s[..FirstLineBreak(s)], Marker, p)
  {
    var n := FirstLineBreak(s);
    if RegexMatchAt(s, p) && p + |Marker| > n {
      MarkerHasNoLineTerminator(n - p);
    }
    if RegexMatchAt(s, p) {
      assert s[..n][p..p + |Marker|] == s[p..p + |Marker|];
    }
    if OccursAt(s[..n], Marker, p) {
      assert s[..n][p..p + |Marker|] == s[p..p + |Marker|];
    }
  }

  /** With no match of the regular expression the path is unchanged. */
  lemma RewriteWithoutMatch(s: string)
    requires forall p :: !RegexMatchAt(s, p)
    ensures RewritePhotoPath(s) == s
  {
    var r := LastOccurrence(s[..FirstLineBreak(s)], Marker);
    if r.Some? {
      RegexMatchInFirstLine(s, r.value);
      assert false;
    }
  }

  /**
   * The rewrite is what the regular expression does: `.*` is greedy, so the
   * match ending latest is replaced by `uploads/`.
   */
  lemma RewriteIsGreedyMatch(s: string, p: int)
    requires RegexMatchAt(s, p)
    requires forall q :: p < q ==> !RegexMatchAt(s, q)
    ensures RewritePhotoPath(s) == "uploads/" + s[p + |Marker|..]
  {
    var line := s[..FirstLineBreak(s)];
    RegexMatchInFirstLine(s, p);
    var r := LastOccurrence(line, Marker);
    assert r.Some?;
    if r.value != p {
      RegexMatchInFirstLine(s, r.value);
      assert false;
    }
  }

  /** A Windows upload path becomes the site-relative `uploads/<name>`, whatever directory precedes it. */
  lemma RewriteWindowsUpload(dir: string, name: string)
    requires forall i :: 0 <= i < |dir| ==> !IsLineTerminator(dir[i])
    requires HasNoChar(name, '\\')
    ensures RewritePhotoPath(dir + Marker + name) == "uploads/" + name
  {
    var s := dir + Marker + name;
    var p := |dir|;
    assert s[p..p + |Marker|] == Marker;
    forall i | 0 <= i < p ensures !IsLineTerminator(s[i]) {
      assert s[i] == dir[i];
    }
    assert RegexMatchAt(s, p);
    forall q | p < q ensures !RegexMatchAt(s, q) {
      if q + |Marker| <= |s| {
        var k := q + 8 - p - |Marker|;
        assert s[q + 8] == name[k] && name[k] != '\\';
        assert s[q..q + |Marker|][8] != Marker[8];
      }
    }
    RewriteIsGreedyMatch(s, p);
    assert s[p + |Marker|..] == name;
  }

  /** `s` with every `/` read as `\`; the length and every other character are kept. */
  function ToBackslashes(s: string): (t: string)
    ensures |t| == |s|
    ensures forall i :: 0 <= i < |s| ==> t[i] == if s[i] == '/' then '\\' else s[i]
  {
    seq(|s|, i requires 0 <= i < |s| => if s[i] == '/' then '\\' else s[i])
  }

  /**
   * The rewrite as intended, `value.replace(/^.*[\\/]uploads[\\/]/, 'uploads/')`:
   * either separator may stand on each side of `uploads`.
   */
  function PortableRewritePhotoPath(s: string): string {
    match LastOccurrence(ToBackslashes(s[..FirstLineBreak(s)]), Marker)
    case None => s
    case Some(p) => "uploads/" + s[p + |Marker|..]
  }

  /** `\uploads\` last occurs at `p` when it occurs there and nowhere later. */
  lemma LastMarkerAt(t: string, p: nat)
    requires OccursAt(t, Marker, p)
    requires forall q :: p < q ==> !OccursAt(t, Marker, q)
    ensures LastOccurrence(t, Marker) == Some(p)
  {
    var r := LastOccurrence(t, Marker);
    assert r.Some?;
  }

  /** No `\uploads\` starts after `p` when no backslash follows the one at `p + 8`. */
  lemma NoMarkerAfter(t: string, p: nat)
    requires forall i :: p + |Marker| <= i < |t| ==> t[i] != '\\'
    ensures forall q :: p < q ==> !OccursAt(t, Marker, q)
  {
    forall q | p < q ensures !OccursAt(t, Marker, q) {
      if q + |Marker| <= |t| {
        assert t[q..q + |Marker|][8] == t[q + 8];
      }
    }
  }

  /** With the intended rewrite an upload path becomes `uploads/<name>`, whichever separator the platform joins with. */
  lemma PortableRewriteUpload(dir: string, sep: char, name: string)
    requires sep == '/' || sep == '\\'
    requires forall i :: 0 <= i < |dir| ==> !IsLineTerminator(dir[i])
    requires HasNoChar(name, '/') && HasNoChar(name, '\\')
    ensures PortableRewritePhotoPath(dir + [sep] + "uploads" + [sep] + name) == "uploads/" + name
  {
    var s := dir + [sep] + "uploads" + [sep] + name;
    var p := |dir|;
    var mid := [sep] + "uploads" + [sep];
    assert s == dir + mid + name;
    forall i | 0 <= i < p + |Marker| ensures !IsLineTerminator(s[i]) {
      if i < p {
        assert s[i] == dir[i];
      } else {
        assert s[i] == mid[i - p];
      }
    }
    var n := FirstLineBreak(s);
    assert n >= p + |Marker|;
    var t := ToBackslashes(s[..n]);
    forall k | 0 <= k < |Marker| ensures t[p + k] == Marker[k] {
      assert s[p + k] == mid[k];
    }
    assert t[p..p + |Marker|] == Marker;
    forall i | p + |Marker| <= i < |t| ensures t[i] != '\\' {
      assert s[i] == name[i - p - |Marker|];
    }
    NoMarkerAfter(t, p);
    LastMarkerAt(t, p);
    assert s[p + |Marker|..] == name;
  }

  /** On a path without `/` the intended rewrite does what the script's does. */
  lemma PortableAgreesWithoutSlash(s: string)
    requires HasNoChar(s, '/')
    ensures PortableRewritePhotoPath(s) == RewritePhotoPath(s)
  {
    var line := s[..FirstLineBreak(s)];
    assert ToBackslashes(line) == line;
  }

  /** The script's rewrite leaves a path without `\` whole: no `\uploads\` can match it. */
  lemma ScriptRewriteKeepsPosixPath(s: string)
    requires HasNoChar(s, '\\')
    ensures RewritePhotoPath(s) == s
  {
    var line := s[..FirstLineBreak(s)];
    forall q ensures !OccursAt(line, Marker, q) {
      if 0 <= q && q + |Marker| <= |line| {
        assert line[q..q + |Marker|][0] == s[q];
      }
    }
  }

  /** The rewrite a reading applies. */
  function RewriteFor(reading: Reading, s: string): string {
    if reading.anySeparator then PortableRewritePhotoPath(s) else RewritePhotoPath(s)
  }

  /** The file path shown for a photo value: falsy values use the default picture; a truthy non-string throws. */
  function PhotoFilePath(v: JsValue, reading: Reading): (r: Option<string>)
    ensures !Truthy(v) ==> r == Some("profilePhoto.png")
    ensures v.Str? && v.s != "" ==> r == Some(RewriteFor(reading, v.s))
    ensures r.None? <==> Truthy(v) && !v.Str?
  {
    if !Truthy(v) then Some("profilePhoto.png")
    else match v
      case Str(s) => Some(RewriteFor(reading, s))
      case _ => None
  }

  /** A table cell: a linked thumbnail, or text. */
  datatype Cell = PhotoCell(href: string, alt: string) | TextCell(text: string)

  /** `${first} ${last}`, the thumbnail's alternative text. */
  function AltText(reg: JsObject, reading: Reading): string {
    JsString(Get(reg, reading.first)) + " " + JsString(Get(reg, reading.last))
  }

  /**
   * The cell for one key of one record; `localeDate` stands for
   * `new Date(v).toLocaleDateString()`. Any falsy value shows as `-`.
   */
  function CellFor(reg: JsObject, key: string, reading: Reading, localeDate: JsValue -> string): (c: Option<Cell>)
    ensures key != "photo" ==> c.Some? && c.value.TextCell?
    ensures key != "photo" && !Truthy(Get(reg, key)) ==> c == Some(TextCell("-"))
    ensures key == "photo" ==> (c.Some? <==> PhotoFilePath(Get(reg, key), reading).Some?)
    ensures key == "photo" && c.Some? ==> c.value == PhotoCell("/" + PhotoFilePath(Get(reg, key), reading).value, AltText(reg, reading))
    ensures (key == "dob" || key == "createdAt") && Truthy(Get(reg, key)) ==> c == Some(TextCell(localeDate(Get(reg, key))))
    ensures key != "photo" && key != "dob" && key != "createdAt" && Truthy(Get(reg, key)) ==> c == Some(TextCell(JsString(Get(reg, key))))
  {
    var v := Get(reg, key);
    if key == "photo" then
      match PhotoFilePath(v, reading)
      case None => None
      case Some(path) => Some(PhotoCell("/" + path, AltText(reg, reading)))
    else if key == "dob" || key == "createdAt" then
      Some(TextCell(if Truthy(v) then localeDate(v) else "-"))
    else
      Some(TextCell(if Truthy(v) && v != Str("") then JsString(v) else "-"))
  }

  /** A record whose photo is a non-empty path shows a thumbnail linked to `/` followed by the rewritten path. */
  lemma PhotoCellOf(reg: JsObject, path: string, reading: Reading, localeDate: JsValue -> string)
    requires Get(reg, "photo") == Str(path) && path != ""
    ensures CellFor(reg, "photo", reading, localeDate) == Some(PhotoCell("/" + RewriteFor(reading, path), AltText(reg, reading)))
  {
  }

  /** A shown text cell is never blank: an empty string shows as `-`. */
  lemma TextCellsNeverBlank(reg: JsObject, key: string, reading: Reading, localeDate: JsValue -> string)
    requires key != "photo" && key != "dob" && key != "createdAt"
    ensures CellFor(reg, key, reading, localeDate).value.text != ""
    ensures CellFor(reg, key, reading, localeDate).value.text == "-" <==> !Truthy(Get(reg, key)) || Get(reg, key) == Str("-")
  {
    var v := Get(reg, key);
    if v.Num? && v.n != 0 {
      assert |IntToDecimal(v.n)| > 0;
      if v.n < 0 {
        assert |IntToDecimal(v.n)| > 1;
      } else {
        assert IsAsciiDigit(IntToDecimal(v.n)[0]);
      }
    }
  }

  // ---------------------------------------------------------------------
  // Header labels
  // ---------------------------------------------------------------------

  /** `key.replace(/([A-Z])/g, ' $1')`: a space before every ASCII capital. */
  function SpaceBeforeUpper(key: string): string
    decreases |key|
  {
    if key == [] then []
    else (if IsAsciiUpper(key[0]) then [' ', key[0]] else [key[0]]) + SpaceBeforeUpper(key[1..])
  }

  /** After the split the text does not start with a capital, and every capital follows a space. */
  lemma {:induction false} SpaceBeforeUpperSpaced(key: string)
    ensures var r := SpaceBeforeUpper(key);
      (r != [] ==> !IsAsciiUpper(r[0])) && forall i :: 0 <= i < |r| && IsAsciiUpper(r[i]) ==> i > 0 && r[i - 1] == ' '
    decreases |key|
  {
    if key != [] {
      SpaceBeforeUpperSpaced(key[1..]);
      var rest := SpaceBeforeUpper(key[1..]);
      var head := if IsAsciiUpper(key[0]) then [' ', key[0]] else [key[0]];
      var r := head + rest;
      forall i | 0 <= i < |r| && IsAsciiUpper(r[i]) ensures i > 0 && r[i - 1] == ' ' {
        if i >= |head| {
          assert r[i] == rest[i - |head|];
          if i > |head| {
            assert r[i - 1] == rest[i - 1 - |head|];
          }
        }
      }
    }
  }

  /** Removes a space wherever it stands before an ASCII capital. */
  function DropSpaceBeforeUpper(s: string): string
    decreases |s|
  {
    if s == [] then []
    else if |s| >= 2 && s[0] == ' ' && IsAsciiUpper(s[1]) then [s[1]] + DropSpaceBeforeUpper(s[2..])
    else [s[0]] + DropSpaceBeforeUpper(s[1..])
  }

  /** No information is lost: the key can be read back from the spaced text. */
  lemma {:induction false} SpaceBeforeUpperRoundTrip(key: string)
    ensures DropSpaceBeforeUpper(SpaceBeforeUpper(key)) == key
    decreases |key|
  {
    if key != [] {
      SpaceBeforeUpperRoundTrip(key[1..]);
      var rest := SpaceBeforeUpper(key[1..]);
      if IsAsciiUpper(key[0]) {
        assert ([' ', key[0]] + rest)[2..] == rest;
      } else {
        assert ([key[0]] + rest)[1..] == rest;
      }
    }
  }

  function CountUpper(s: string): nat
    decreases |s|
  {
    if s == [] then 0 else (if IsAsciiUpper(s[0]) then 1 else 0) + CountUpper(s[1..])
  }

  /** The spaced text is one character longer per capital. */
  lemma {:induction false} SpaceBeforeUpperLength(key: string)
    ensures |SpaceBeforeUpper(key)| == |key| + CountUpper(key)
    decreases |key|
  {
    if key != [] {
      SpaceBeforeUpperLength(key[1..]);
    }
  }

  /** `capitalizeFirstLetter(s)`: `s.charAt(0).toUpperCase() + s.slice(1)`. */
  function CapitalizeFirstLetter(s: string): (r: string)
    ensures |r| == |s|
    ensures s != [] ==> r[0] == ToUpperChar(s[0]) && r[1..] == s[1..]
  {
    if s == [] then [] else [ToUpperChar(s[0])] + s[1..]
  }

  /** The header text of a column. */
  function HeaderLabel(key: string): string {
    CapitalizeFirstLetter(SpaceBeforeUpper(key))
  }

  lemma SpaceBeforeCapitalHead(c: char, b: string)
    requires IsAsciiUpper(c)
    ensures SpaceBeforeUpper([c] + b) == [' ', c] + SpaceBeforeUpper(b)
  {
    assert ([c] + b)[1..] == b;
  }

  /** A key without capitals is left as it is. */
  lemma SpaceBeforeNoCapital(b: string)
    requires forall i :: 0 <= i < |b| ==> !IsAsciiUpper(b[i])
    ensures SpaceBeforeUpper(b) == b
  {
    SpaceBeforeUpperPlain(b, []);
    assert b + [] == b;
  }

  /** A capital followed by a text without capitals gets one space, before the capital. */
  lemma SpaceBeforeCapitalTail(c: char, b: string)
    requires forall i :: 0 <= i < |b| ==> !IsAsciiUpper(b[i])
    requires IsAsciiUpper(c)
    ensures SpaceBeforeUpper([c] + b) == [' ', c] + b
  {
    SpaceBeforeCapitalHead(c, b);
    SpaceBeforeNoCapital(b);
  }

  lemma RegroupAroundCapital(a: string, c: char, b: string)
    ensures a + [c] + b == a + ([c] + b)
    ensures a + ([' ', c] + b) == a + [' ', c] + b
  {
  }

  /** A camel-case key with one capital gets exactly one space, before that capital. */
  lemma SpaceBeforeOneCapital(a: string, c: char, b: string)
    requires forall i :: 0 <= i < |a| ==> !IsAsciiUpper(a[i])
    requires forall i :: 0 <= i < |b| ==> !IsAsciiUpper(b[i])
    requires IsAsciiUpper(c)
    ensures SpaceBeforeUpper(a + [c] + b) == a + [' ', c] + b
  {
    SpaceBeforeCapitalTail(c, b);
    SpaceBeforeUpperPlain(a, [c] + b);
    RegroupAroundCapital(a, c, b);
  }

  /** A camel-case key with one capital is labelled with its first letter upper-cased and a space before the capital. */
  lemma OneCapitalLabel(a: string, c: char, b: string)
    requires a != []
    requires forall i :: 0 <= i < |a| ==> !IsAsciiUpper(a[i])
    requires forall i :: 0 <= i < |b| ==> !IsAsciiUpper(b[i])
    requires IsAsciiUpper(c)
    ensures HeaderLabel(a + [c] + b) == [ToUpperChar(a[0])] + a[1..] + [' ', c] + b
  {
    SpaceBeforeOneCapital(a, c, b);
    var spaced := a + [' ', c] + b;
    assert spaced[1..] == a[1..] + [' ', c] + b;
  }

  /** `createdAt` is shown as `Created At`. */
  lemma CreatedAtLabel(key: string)
    requires key == "createdAt"
    ensures HeaderLabel(key) == "Created At"
  {
    var a, b := "created", "t";
    assert key == a + ['A'] + b;
    OneCapitalLabel(a, 'A', b);
    assert [ToUpperChar(a[0])] + a[1..] + [' ', 'A'] + b == "Created At";
  }

  /** A key without capitals only has its first letter capitalised. */
  lemma PlainKeyLabel(key: string)
    requires key != [] && forall i :: 0 <= i < |key| ==> !IsAsciiUpper(key[i])
    ensures HeaderLabel(key) == [ToUpperChar(key[0])] + key[1..]
  {
    SpaceBeforeNoCapital(key);
  }

  /** A prefix without capitals is copied as it is. */
  lemma {:induction false} SpaceBeforeUpperPlain(a: string, b: string)
    requires forall i :: 0 <= i < |a| ==> !IsAsciiUpper(a[i])
    ensures SpaceBeforeUpper(a + b) == a + SpaceBeforeUpper(b)
    decreases |a|
  {
    if a == [] {
      assert a + b == b;
    } else {
      assert (a + b)[1..] == a[1..] + b;
      SpaceBeforeUpperPlain(a[1..], b);
    }
  }

  // ---------------------------------------------------------------------
  // Rendering
  // ---------------------------------------------------------------------

  /** What the table body (`tableBody`) shows. */
  datatype Body =
    | Loading                     // before the first fetch completes
    | NoData                      // the "No registration data found" row
    | Rows(rows: seq<seq<Cell>>)  // one row per record drawn
    | LoadError                   // the "Error loading data" row

  /**
   * The table after one `renderRegistrations` call: the header row
   * (`tableHead`), the body, and whether drawing stopped at a TypeError.
   */
  datatype Drawing = Drawing(head: seq<string>, body: Body, threw: bool)

  /**
   * `forEach` over `xs` where each step may throw: the results in order, or
   * `None` as soon as one step throws.
   */
  function MapOrThrow<A, B>(xs: seq<A>, f: A -> Option<B>): Option<seq<B>>
    decreases |xs|
  {
    if xs == [] then Some([])
    else
      var n := |xs| - 1;
      match MapOrThrow(xs[..n], f)
      case None => None
      case Some(ys) =>
        match f(xs[n])
        case None => None
        case Some(y) => Some(ys + [y])
  }

  /** One result per element, in order, and `None` exactly when some step throws. */
  lemma {:induction false} MapOrThrowSpec<A, B>(xs: seq<A>, f: A -> Option<B>)
    ensures var r := MapOrThrow(xs, f);
      && (r.Some? ==> |r.value| == |xs| && forall i :: 0 <= i < |xs| ==> Some(r.value[i]) == f(xs[i]))
      && (r.None? <==> exists i :: 0 <= i < |xs| && f(xs[i]).None?)
    decreases |xs|
  {
    if xs != [] {
      var n := |xs| - 1;
      var front := xs[..n];
      MapOrThrowSpec(front, f);
      assert forall i :: 0 <= i < n ==> front[i] == xs[i];
    }
  }

  /** The index of the first element whose step throws, or `|xs|` when none does. */
  function FirstThrow<A, B>(xs: seq<A>, f: A -> Option<B>): (k: nat)
    ensures k <= |xs|
    decreases |xs|
  {
    if xs == [] || f(xs[0]).None? then 0 else 1 + FirstThrow(xs[1..], f)
  }

  /** Every step before `FirstThrow` succeeds, and the step at it (if any) throws. */
  lemma {:induction false} FirstThrowSpec<A, B>(xs: seq<A>, f: A -> Option<B>)
    ensures var k := FirstThrow(xs, f);
      && (forall i :: 0 <= i < k ==> f(xs[i]).Some?)
      && (k < |xs| ==> f(xs[k]).None?)
    decreases |xs|
  {
    if xs != [] && f(xs[0]).Some? {
      var rest := xs[1..];
      FirstThrowSpec(rest, f);
      var k := FirstThrow(xs, f);
      forall i | 0 <= i < k ensures f(xs[i]).Some? {
        if i > 0 {
          assert xs[i] == rest[i - 1];
        }
      }
      if k < |xs| {
        assert xs[k] == rest[k - 1];
      }
    }
  }

  /** `FirstThrow` is the one index with only successful steps before it and a throwing step (or the end) at it. */
  lemma FirstThrowAt<A, B>(xs: seq<A>, f: A -> Option<B>, i: nat)
    requires i <= |xs|
    requires forall j :: 0 <= j < i ==> f(xs[j]).Some?
    requires i < |xs| ==> f(xs[i]).None?
    ensures FirstThrow(xs, f) == i
  {
    FirstThrowSpec(xs, f);
  }

  /**
   * What a `forEach` whose steps may throw has produced when it stops: the
   * results of the steps before the first one that throws.
   */
  function MapBeforeThrow<A, B>(xs: seq<A>, f: A -> Option<B>): seq<B> {
    match MapOrThrow(xs[..FirstThrow(xs, f)], f)
    case Some(ys) => ys
    case None => []
  }

  /**
   * The results before the first throw, one per step and in order; when no
   * step throws they are the whole result of `MapOrThrow`.
   */
  lemma MapBeforeThrowSpec<A, B>(xs: seq<A>, f: A -> Option<B>)
    ensures var ys, k := MapBeforeThrow(xs, f), FirstThrow(xs, f);
      && MapOrThrow(xs[..k], f) == Some(ys)
      && |ys| == k && (forall i :: 0 <= i < k ==> Some(ys[i]) == f(xs[i]))
      && (MapOrThrow(xs, f).Some? <==> k == |xs|)
      && (MapOrThrow(xs, f).Some? ==> ys == MapOrThrow(xs, f).value)
  {
    var k := FirstThrow(xs, f);
    var front := xs[..k];
    FirstThrowSpec(xs, f);
    MapOrThrowSpec(front, f);
    MapOrThrowSpec(xs, f);
    assert forall i :: 0 <= i < k ==> front[i] == xs[i];
    if k == |xs| {
      assert front == xs;
    }
  }

  /** Extending the input by one element that does not throw appends its result. */
  lemma MapOrThrowSnoc<A, B>(xs: seq<A>, k: nat, f: A -> Option<B>, ys: seq<B>, y: B)
    requires k < |xs| && MapOrThrow(xs[..k], f) == Some(ys) && f(xs[k]) == Some(y)
    ensures MapOrThrow(xs[..k + 1], f) == Some(ys + [y])
  {
    assert xs[..k + 1][..k] == xs[..k];
  }

  /** The cells of one record, one per header, or `None` when a cell throws. */
  function RowCells(reg: JsObject, headers: seq<string>, reading: Reading, localeDate: JsValue -> string): Option<seq<Cell>> {
    MapOrThrow(headers, key => CellFor(reg, key, reading, localeDate))
  }

  /** A row has one cell per header, in header order, and is `None` exactly when some cell throws. */
  lemma RowCellsSpec(reg: JsObject, headers: seq<string>, reading: Reading, localeDate: JsValue -> string)
    ensures var r := RowCells(reg, headers, reading, localeDate);
      && (r.Some? ==> (|r.value| == |headers|
           && forall j :: 0 <= j < |headers| ==> Some(r.value[j]) == CellFor(reg, headers[j], reading, localeDate)))
      && (r.None? <==> exists j :: 0 <= j < |headers| && CellFor(reg, headers[j], reading, localeDate).None?)
  {
    MapOrThrowSpec(headers, key => CellFor(reg, key, reading, localeDate));
  }

  /** The rows of all records, or `None` when some cell throws. */
  function BodyRows(regs: seq<JsObject>, headers: seq<string>, reading: Reading, localeDate: JsValue -> string): Option<seq<seq<Cell>>> {
    MapOrThrow(regs, reg => RowCells(reg, headers, reading, localeDate))
  }

  /** The body has one row per record, in record order, and is `None` exactly when some record's row throws. */
  lemma BodyRowsSpec(regs: seq<JsObject>, headers: seq<string>, reading: Reading, localeDate: JsValue -> string)
    ensures var r := BodyRows(regs, headers, reading, localeDate);
      && (r.Some? ==> (|r.value| == |regs|
           && forall i :: 0 <= i < |regs| ==> Some(r.value[i]) == RowCells(regs[i], headers, reading, localeDate)))
      && (r.None? <==> exists i :: 0 <= i < |regs| && RowCells(regs[i], headers, reading, localeDate).None?)
  {
    MapOrThrowSpec(regs, reg => RowCells(reg, headers, reading, localeDate));
  }

  /** The header labels of the given keys. */
  function Labels(headers: seq<string>): (ls: seq<string>)
    ensures |ls| == |headers| && forall j :: 0 <= j < |headers| ==> ls[j] == HeaderLabel(headers[j])
  {
    seq(|headers|, j requires 0 <= j < |headers| => HeaderLabel(headers[j]))
  }

  /** The rows drawn before a record's row throws: all of them when none does. */
  function DrawnRows(regs: seq<JsObject>, headers: seq<string>, reading: Reading, localeDate: JsValue -> string): seq<seq<Cell>> {
    MapBeforeThrow(regs, reg => RowCells(reg, headers, reading, localeDate))
  }

  /**
   * The drawn rows are the rows of the records before the first record whose
   * row throws, in order; drawing throws exactly when such a record exists,
   * and otherwise the drawn rows are the whole body.
   */
  lemma DrawnRowsSpec(regs: seq<JsObject>, headers: seq<string>, reading: Reading, localeDate: JsValue -> string)
    ensures var rows, k := DrawnRows(regs, headers, reading, localeDate), FirstThrow(regs, reg => RowCells(reg, headers, reading, localeDate));
      && |rows| == k && k <= |regs|
      && (forall i :: 0 <= i < k ==> Some(rows[i]) == RowCells(regs[i], headers, reading, localeDate))
      && (k < |regs| ==> RowCells(regs[k], headers, reading, localeDate).None?)
      && (BodyRows(regs, headers, reading, localeDate).None? <==> k < |regs|)
      && (BodyRows(regs, headers, reading, localeDate).Some? ==> rows == BodyRows(regs, headers, reading, localeDate).value)
  {
    var f := reg => RowCells(reg, headers, reading, localeDate);
    FirstThrowSpec(regs, f);
    MapBeforeThrowSpec(regs, f);
  }

  /**
   * `renderRegistrations(regs)` on a page whose header row is `head`. An
   * empty list replaces only the body, so the header row stays. Otherwise the
   * header row becomes the labels of the first record's keys and the body is
   * cleared and filled row by row; a row that throws ends the drawing with
   * the rows before it on screen.
   */
  function Rendered(regs: seq<JsObject>, head: seq<string>, reading: Reading, localeDate: JsValue -> string): Drawing {
    if regs == [] then Drawing(head, NoData, false)
    else
      var headers := Keys(regs[0]);
      Drawing(Labels(headers), Rows(DrawnRows(regs, headers, reading, localeDate)),
              BodyRows(regs, headers, reading, localeDate).None?)
  }

  /** A drawing that throws keeps the new header row and the rows of the records before the first one that throws. */
  lemma RenderedInterrupted(regs: seq<JsObject>, head: seq<string>, reading: Reading, localeDate: JsValue -> string)
    requires Rendered(regs, head, reading, localeDate).threw
    ensures var d, headers := Rendered(regs, head, reading, localeDate), Keys(regs[0]);
      && d.head == Labels(headers) && d.body.Rows?
      && |d.body.rows| < |regs|
      && (forall i :: 0 <= i < |d.body.rows| ==> Some(d.body.rows[i]) == RowCells(regs[i], headers, reading, localeDate))
      && RowCells(regs[|d.body.rows|], headers, reading, localeDate).None?
  {
    DrawnRowsSpec(regs, Keys(regs[0]), reading, localeDate);
  }

  /** The header row: `headers.forEach(key => th.textContent = capitalizeFirstLetter(...))`. */
  method BuildHeaderLabels(headers: seq<string>) returns (labels: seq<string>)
    ensures labels == Labels(headers)
  {
    labels := [];
    var j := 0;
    while j < |headers|
      invariant 0 <= j <= |headers|
      invariant labels == Labels(headers[..j])
    {
      labels := labels + [HeaderLabel(headers[j])];
      j := j + 1;
    }
    assert headers[..j] == headers;
  }

  /** One row: a cell per header, in header order, stopping at the first cell that throws. */
  method BuildRow(reg: JsObject, headers: seq<string>, reading: Reading, localeDate: JsValue -> string)
    returns (row: Option<seq<Cell>>)
    ensures row == RowCells(reg, headers, reading, localeDate)
  {
    var cells: seq<Cell> := [];
    var k := 0;
    while k < |headers|
      invariant 0 <= k <= |headers|
      invariant RowCells(reg, headers[..k], reading, localeDate) == Some(cells)
    {
      var cell := CellFor(reg, headers[k], reading, localeDate);
      if cell.None? {
        RowCellsSpec(reg, headers, reading, localeDate);
        return None;
      }
      MapOrThrowSnoc(headers, k, key => CellFor(reg, key, reading, localeDate), cells, cell.value);
      cells := cells + [cell.value];
      k := k + 1;
    }
    assert headers[..k] == headers;
    row := Some(cells);
  }

  /**
   * The table body: `registrations.forEach(reg => ...)`, one row per record,
   * each appended once its cells are made. A row that throws stops the loop
   * with the earlier rows already appended.
   */
  method BuildBody(regs: seq<JsObject>, headers: seq<string>, reading: Reading, localeDate: JsValue -> string)
    returns (rows: seq<seq<Cell>>, threw: bool)
    ensures rows == DrawnRows(regs, headers, reading, localeDate)
    ensures threw <==> BodyRows(regs, headers, reading, localeDate).None?
  {
    var f := reg => RowCells(reg, headers, reading, localeDate);
    rows := [];
    var i := 0;
    while i < |regs|
      invariant 0 <= i <= |regs|
      invariant MapOrThrow(regs[..i], f) == Some(rows)
    {
      var row := BuildRow(regs[i], headers, reading, localeDate);
      if row.None? {
        BodyStopsAt(regs, i, f, rows);
        DrawnRowsSpec(regs, headers, reading, localeDate);
        return rows, true;
      }
      MapOrThrowSnoc(regs, i, f, rows, row.value);
      rows := rows + [row.value];
      i := i + 1;
    }
    assert regs[..i] == regs;
    BodyStopsAt(regs, i, f, rows);
    DrawnRowsSpec(regs, headers, reading, localeDate);
    threw := false;
  }

  /** A loop over `xs` that has the results of the first `i` steps and stops at `i` has the results before the first throw. */
  lemma BodyStopsAt<A, B>(xs: seq<A>, i: nat, f: A -> Option<B>, ys: seq<B>)
    requires i <= |xs| && MapOrThrow(xs[..i], f) == Some(ys)
    requires i < |xs| ==> f(xs[i]).None?
    ensures FirstThrow(xs, f) == i && MapBeforeThrow(xs, f) == ys
  {
    var front := xs[..i];
    MapOrThrowSpec(front, f);
    forall j | 0 <= j < i ensures f(xs[j]).Some? {
      assert front[j] == xs[j];
      assert Some(ys[j]) == f(front[j]);
    }
    FirstThrowAt(xs, f, i);
    assert MapOrThrow(xs[..FirstThrow(xs, f)], f) == Some(ys);
  }

  /** A record's photo is a string or absent, as the server's schema guarantees. */
  predicate PhotoIsText(reg: JsObject) {
    Get(reg, "photo").Str? || !Truthy(Get(reg, "photo"))
  }

  /** Drawing is complete, with one row per record and one cell per column, when every photo is text. */
  lemma RenderedShape(regs: seq<JsObject>, head: seq<string>, reading: Reading, localeDate: JsValue -> string)
    requires regs != []
    requires forall i :: 0 <= i < |regs| ==> PhotoIsText(regs[i])
    ensures !Rendered(regs, head, reading, localeDate).threw && Rendered(regs, head, reading, localeDate).body.Rows?
    ensures var d := Rendered(regs, head, reading, localeDate);
      |d.head| == |regs[0].entries| && |d.body.rows| == |regs|
      && forall i :: 0 <= i < |regs| ==> |d.body.rows[i]| == |regs[0].entries|
  {
    var headers := Keys(regs[0]);
    forall i | 0 <= i < |regs|
      ensures RowCells(regs[i], headers, reading, localeDate).Some?
      ensures |RowCells(regs[i], headers, reading, localeDate).value| == |headers|
    {
      RowCellsSpec(regs[i], headers, reading, localeDate);
      forall j | 0 <= j < |headers| ensures CellFor(regs[i], headers[j], reading, localeDate).Some? {
      }
    }
    BodyRowsSpec(regs, headers, reading, localeDate);
    DrawnRowsSpec(regs, headers, reading, localeDate);
  }

  // ---------------------------------------------------------------------
  // The name keys the script reads
  // ---------------------------------------------------------------------

  /** The two records of the filtering example, as the server sends them (camel-case names). */
  const Ann: JsObject := JsObject([("firstName", Str("Ann")), ("lastName", Str("Lee")),
                                   ("email", Str("a@x.com")), ("whoareyou", Str("student"))])
  const Bob: JsObject := JsObject([("firstName", Str("Bob")), ("lastName", Str("Roy")),
                                   ("email", Str("b@x.com")), ("whoareyou", Str("employee"))])

  /** Lower-casing cannot create a lower-case letter that is absent in both cases. */
  lemma ToLowerHasNoChar(s: string, c: char)
    requires IsAsciiLower(c) && HasNoChar(s, c) && HasNoChar(s, ToUpperChar(c))
    ensures HasNoChar(ToLower(s), c)
  {
  }

  /** A record with no snake-case name keys has the search text `undefined  undefined`. */
  lemma ScriptSearchNameOfStoredRecord(reg: JsObject)
    requires Get(reg, "first_name") == Undefined && Get(reg, "middle_name") == Undefined
    requires Get(reg, "last_name") == Undefined
    ensures SearchName(reg, ScriptReading) == "undefined  undefined"
    ensures AltText(reg, ScriptReading) == "undefined undefined"
  {
  }

  /** A string without `a`, `A`, `n` and `N` never matches the term `ann`. */
  lemma NoAnn(s: string)
    requires HasNoChar(s, 'a') && HasNoChar(s, 'A')
    ensures !Includes(ToLower(s), "ann")
  {
    ToLowerHasNoChar(s, 'a');
    MissingCharNotIncluded(ToLower(s), "ann", 0);
  }

  lemma AnnFields()
    ensures Get(Ann, "firstName") == Str("Ann") && Get(Ann, "email") == Str("a@x.com")
    ensures Get(Ann, "whoareyou") == Str("student")
    ensures Get(Ann, "first_name") == Undefined && Get(Ann, "middle_name") == Undefined
    ensures Get(Ann, "last_name") == Undefined
  {
  }

  lemma BobFields()
    ensures Get(Bob, "firstName") == Str("Bob") && Get(Bob, "middleName") == Undefined
    ensures Get(Bob, "lastName") == Str("Roy")
    ensures Get(Bob, "email") == Str("b@x.com") && Get(Bob, "whoareyou") == Str("employee")
    ensures Get(Bob, "first_name") == Undefined && Get(Bob, "middle_name") == Undefined
    ensures Get(Bob, "last_name") == Undefined
  {
  }

  /** Filtering a two-record list keeps each record its callback keeps. */
  lemma FilterPair(x: JsObject, y: JsObject, term: string, profession: string, reading: Reading, kx: bool, ky: bool)
    requires Keep(x, term, profession, reading) == Some(kx) && Keep(y, term, profession, reading) == Some(ky)
    ensures FilterRecords([x, y], term, profession, reading) == Some((if kx then [x] else []) + (if ky then [y] else []))
  {
    assert [x, y][1..] == [y];
    assert [y][1..] == [];
    var ys := if ky then [y] else [];
    assert FilterRecords([y], term, profession, reading) == Some(ys + []);
    assert ys + [] == ys;
  }

  /** A two-record list neither of whose records is kept filters to nothing. */
  lemma FilterNeither(x: JsObject, y: JsObject, term: string, profession: string, reading: Reading)
    requires Keep(x, term, profession, reading) == Some(false) && Keep(y, term, profession, reading) == Some(false)
    ensures FilterRecords([x, y], term, profession, reading) == Some([])
  {
    FilterPair(x, y, term, profession, reading, false, false);
    var none: seq<JsObject> := [];
    assert none + none == none;
  }

  lemma FilterFirstOnly(x: JsObject, y: JsObject, term: string, profession: string, reading: Reading)
    requires Keep(x, term, profession, reading) == Some(true) && Keep(y, term, profession, reading) == Some(false)
    ensures FilterRecords([x, y], term, profession, reading) == Some([x])
  {
    FilterPair(x, y, term, profession, reading, true, false);
    assert [x] + [] == [x];
  }

  lemma FilterSecondOnly(x: JsObject, y: JsObject, term: string, profession: string, reading: Reading)
    requires Keep(x, term, profession, reading) == Some(false) && Keep(y, term, profession, reading) == Some(true)
    ensures FilterRecords([x, y], term, profession, reading) == Some([y])
  {
    FilterPair(x, y, term, profession, reading, false, true);
    assert [] + [y] == [y];
  }

  /** A record matches the term `ann` in none of its three texts. */
  lemma NoAnnAnywhere(reg: JsObject, reading: Reading, email: string, category: string)
    requires Get(reg, "email") == Str(email) && Get(reg, "whoareyou") == Str(category)
    requires HasNoChar(SearchName(reg, reading), 'a') && HasNoChar(SearchName(reg, reading), 'A')
    requires HasNoChar(email, 'n') && HasNoChar(email, 'N')
    requires HasNoChar(category, 'a') && HasNoChar(category, 'A')
    ensures Keep(reg, "ann", "", reading) == Some(false)
  {
    NoAnn(SearchName(reg, reading));
    ToLowerHasNoChar(email, 'n');
    MissingCharNotIncluded(ToLower(email), "ann", 1);
    NoAnn(category);
  }

  lemma AnnTextsLackAnn()
    ensures HasNoChar("a@x.com", 'n') && HasNoChar("a@x.com", 'N')
    ensures HasNoChar("student", 'a') && HasNoChar("student", 'A')
  {
  }

  lemma ScriptKeysMissAnn()
    ensures Keep(Ann, "ann", "", ScriptReading) == Some(false)
  {
    AnnFields();
    ScriptSearchNameOfStoredRecord(Ann);
    NameTextsLackA();
    AnnTextsLackAnn();
    NoAnnAnywhere(Ann, ScriptReading, "a@x.com", "student");
  }

  lemma BobTextsLackAnn()
    ensures HasNoChar("b@x.com", 'n') && HasNoChar("b@x.com", 'N')
    ensures HasNoChar("employee", 'a') && HasNoChar("employee", 'A')
  {
  }

  lemma NameTextsLackA()
    ensures HasNoChar("undefined  undefined", 'a') && HasNoChar("undefined  undefined", 'A')
    ensures HasNoChar("Bob  Roy", 'a') && HasNoChar("Bob  Roy", 'A')
  {
  }

  /** Bob Roy is not found by `ann`, under either set of name keys. */
  lemma NobodyElseIsAnn(reading: Reading)
    requires reading == ScriptReading || reading == CorrectedReading
    ensures Keep(Bob, "ann", "", reading) == Some(false)
  {
    BobFields();
    BobTextsLackAnn();
    NameTextsLackA();
    if reading == ScriptReading {
      ScriptSearchNameOfStoredRecord(Bob);
    } else {
      assert SearchName(Bob, reading) == "Bob  Roy";
    }
    NoAnnAnywhere(Bob, reading, "b@x.com", "employee");
  }

  /**
   * As written, the script reads `first_name`, `middle_name` and
   * `last_name`, which the server never sends: searching `ann` finds neither
   * Ann Lee nor anyone else.
   */
  lemma ScriptKeysMissName(records: seq<JsObject>)
    requires records == [Ann, Bob]
    ensures FilterRecords(records, "ann", "", ScriptReading) == Some([])
  {
    var x, y := records[0], records[1];
    ScriptKeysMissAnn();
    NobodyElseIsAnn(ScriptReading);
    FilterNeither(x, y, "ann", "", ScriptReading);
    assert records == [x, y];
  }

  /** A term found in the lower-cased start of a text is found in the whole lower-cased text. */
  lemma IncludesInLowerPrefix(a: string, b: string, term: string)
    requires Includes(ToLower(a), term)
    ensures Includes(ToLower(a + b), term)
  {
    ToLowerConcat(a, b);
    IncludesInfix([], ToLower(a), ToLower(b), term);
    assert [] + ToLower(a) + ToLower(b) == ToLower(a) + ToLower(b);
  }

  /** A record whose name text holds the term is kept when no category filter is set. */
  lemma KeepWhenNameIncludes(reg: JsObject, term: string, reading: Reading)
    requires Includes(ToLower(SearchName(reg, reading)), term)
    ensures Keep(reg, term, "", reading) == Some(true)
  {
  }

  /** The search text begins with the first name as the template prints it. */
  lemma SearchNameStartsWithFirst(reg: JsObject, reading: Reading)
    ensures var first := JsString(Get(reg, reading.first));
      var text := SearchName(reg, reading);
      |first| <= |text| && text == first + text[|first|..]
  {
    var first := JsString(Get(reg, reading.first));
    var middle := Get(reg, reading.middle);
    var tail := " " + (if Truthy(middle) then JsString(middle) else "") + " " + JsString(Get(reg, reading.last));
    assert SearchName(reg, reading) == first + tail;
  }

  /** The lower-cased search text of a record without a `first_name` key starts with `undefined`. */
  lemma ScriptKeysFindUndefined(reg: JsObject)
    requires Get(reg, "first_name") == Undefined
    ensures Keep(reg, "undefined", "", ScriptReading) == Some(true)
  {
    var text := SearchName(reg, ScriptReading);
    var u := "undefined";
    assert text == u + text[|u|..];
    ToLowerConcat(u, text[|u|..]);
    assert ToLower(u) == u;
    assert StartsWith(ToLower(text), u);
  }

  /** As written, the search term `undefined` matches every record the server sends. */
  lemma ScriptKeysMatchUndefined(all: seq<JsObject>)
    requires forall k :: 0 <= k < |all| ==> Get(all[k], "first_name") == Undefined
    ensures FilterRecords(all, "undefined", "", ScriptReading) == Some(all)
  {
    forall k | 0 <= k < |all| ensures Keep(all[k], "undefined", "", ScriptReading) == Some(true) {
      ScriptKeysFindUndefined(all[k]);
    }
    FilterKeepsAllKept(all, "undefined", "", ScriptReading);
  }

  /**
   * With the keys the server uses, a term found in the lower-cased first
   * name always keeps the record (when no category filter is set).
   */
  lemma StoredKeysFindFirstName(reg: JsObject, first: string, term: string)
    requires Get(reg, "firstName") == Str(first) && Includes(ToLower(first), term)
    ensures Keep(reg, term, "", CorrectedReading) == Some(true)
  {
    var text := SearchName(reg, CorrectedReading);
    SearchNameStartsWithFirst(reg, CorrectedReading);
    assert JsString(Get(reg, CorrectedReading.first)) == first;
    IncludesInLowerPrefix(first, text[|first|..], term);
    KeepWhenNameIncludes(reg, term, CorrectedReading);
  }

  lemma StoredKeysFindAnnRecord()
    ensures Keep(Ann, "ann", "", CorrectedReading) == Some(true)
  {
    AnnFields();
    var lower := ToLower("Ann");
    assert lower == "ann";
    IncludesSelf(lower);
    StoredKeysFindFirstName(Ann, "Ann", "ann");
  }

  /** With the keys the server uses, searching `ann` finds Ann Lee and only her. */
  lemma StoredKeysFindAnn(records: seq<JsObject>)
    requires records == [Ann, Bob]
    ensures FilterRecords(records, "ann", "", CorrectedReading) == Some([Ann])
  {
    var x, y := records[0], records[1];
    StoredKeysFindAnnRecord();
    NobodyElseIsAnn(CorrectedReading);
    FilterFirstOnly(x, y, "ann", "", CorrectedReading);
    assert records == [x, y];
  }

  /** The category filter alone picks Bob, whichever keys the names are read under. */
  lemma CategoryFilterPicksBob(reading: Reading)
    ensures FilterRecords([Ann, Bob], "", "employee", reading) == Some([Bob])
  {
    AnnFields();
    BobFields();
    IncludesEmpty(ToLower(SearchName(Ann, reading)));
    IncludesEmpty(ToLower(SearchName(Bob, reading)));
    assert MatchSearch(Ann, "", reading) == Some(true) && !MatchProfession(Ann, "employee");
    assert MatchSearch(Bob, "", reading) == Some(true) && MatchProfession(Bob, "employee");
    FilterSecondOnly(Ann, Bob, "", "employee", reading);
  }

  // ---------------------------------------------------------------------
  // The dashboard
  // ---------------------------------------------------------------------

  /**
   * The dashboard page: the fetched records, the table's header row and body,
   * and whether the filter inputs are enabled. The header row starts empty.
   */
  class AdminView {
    const reading: Reading
    const localeDate: JsValue -> string
    var allRegistrations: seq<JsObject>
    var head: seq<string>
    var body: Body
    var filtersEnabled: bool

    constructor (reading: Reading, localeDate: JsValue -> string)
      ensures this.reading == reading && this.localeDate == localeDate
      ensures allRegistrations == [] && head == [] && body == Loading && !filtersEnabled
    {
      this.reading := reading;
      this.localeDate := localeDate;
      allRegistrations := [];
      head := [];
      body := Loading;
      filtersEnabled := false;
    }

    /**
     * `renderRegistrations`: headers from the first record, then one row per
     * record, one cell per header. `threw` reports the TypeError that ends a
     * drawing early, with what was drawn before it left on the page.
     */
    method RenderRegistrations(regs: seq<JsObject>) returns (threw: bool)
      modifies this
      ensures Drawing(head, body, threw) == Rendered(regs, old(head), reading, localeDate)
      ensures allRegistrations == old(allRegistrations) && filtersEnabled == old(filtersEnabled)
    {
      if |regs| == 0 {
        body := NoData;
        return false;
      }
      var headers := Keys(regs[0]);
      head := BuildHeaderLabels(headers);
      var rows;
      rows, threw := BuildBody(regs, headers, reading, localeDate);
      body := Rows(rows);
    }

    /**
     * The fetch succeeded with `data`: it is kept as the full set and drawn,
     * then the filters are enabled. A TypeError while drawing goes to the
     * fetch chain's `catch`, which replaces the body by the error row; the
     * header row already drawn stays and the filters stay as they were.
     */
    method OnFetched(data: seq<JsObject>)
      modifies this
      ensures allRegistrations == data
      ensures var d := Rendered(data, old(head), reading, localeDate);
        && head == d.head
        && (!d.threw ==> body == d.body && filtersEnabled)
        && (d.threw ==> body == LoadError && filtersEnabled == old(filtersEnabled))
    {
      allRegistrations := data;
      var threw := RenderRegistrations(data);
      if threw {
        body := LoadError;
      } else {
        filtersEnabled := true;
      }
    }

    /** The fetch failed or the response was not ok: only the body changes. */
    method OnFetchFailed()
      modifies this
      ensures body == LoadError
      ensures head == old(head)
      ensures allRegistrations == old(allRegistrations) && filtersEnabled == old(filtersEnabled)
    {
      body := LoadError;
    }

    /**
     * `filterRegistrations`: always filters the full fetched set, never an
     * earlier result. When the callback throws, nothing is redrawn; a
     * TypeError while drawing leaves the partly drawn table.
     */
    method FilterRegistrations(search: string, profession: string)
      modifies this
      ensures allRegistrations == old(allRegistrations) && filtersEnabled == old(filtersEnabled)
      ensures match FilterRecords(old(allRegistrations), ToLower(search), profession, reading)
        case None => head == old(head) && body == old(body)
        case Some(shown) =>
          var d := Rendered(shown, old(head), reading, localeDate);
          head == d.head && body == d.body
    {
      var term := ToLower(search);
      var filtered := FilterRecords(allRegistrations, term, profession, reading);
      if filtered.Some? {
        var _ := RenderRegistrations(filtered.value);
      }
    }
  }
}
