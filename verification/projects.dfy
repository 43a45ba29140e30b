/** The project endpoints of app/projects/routes.py: the recursive input
    sanitizer, the name rule of `save_project`, and the ownership rules of
    `get_project` and `delete_project`.  The table is a map from
    `project_ulid` (its primary key) to the row. */
module Projects {
  import opened Wrappers
  import Text
  import Json
  import Http

  datatype Project = Project(
    ulid: string,
    name: string,
    data: Json.Value,
    owner: string,
    createdAt: nat,
    updatedAt: nat)

  type Store = map<string, Project>

  datatype Outcome = Outcome(store: Store, response: Http.Response)

  // ---------------------------------------------------------------------
  // sanitize_project_input
  // ---------------------------------------------------------------------

  /** The value stored under an (escaped) key of a dict: a string is
      escaped, a dict is sanitized, a list has its string items escaped, and
      any other value is kept. */
  function SanitizeMember(value: Json.Value): (r: Json.Value)
    decreases value, 1
    ensures value.Str? ==> r == Json.Str(Text.Escape(value.s))
    // a dict stays a dict and a list stays a list of the same size
    ensures value.Object? ==> r.Object? && |r.members| == |value.members|
    ensures value.List? ==> r.List? && |r.items| == |value.items|
    // a nested dict is sanitized recursively; a list has its string items
    // escaped and nothing else
    ensures value.Object? ==> r == SanitizeProjectInput(value)
    ensures value.List? ==> r.items == EscapeStringItems(value.items)
    ensures !value.Str? && !value.Object? && !value.List? ==> r == value
  {
    match value
    case Str(s) => Json.Str(Text.Escape(s))
    case Object(_) => SanitizeProjectInput(value)
    case List(items) => Json.List(EscapeStringItems(items))
    case _ => value
  }

  /** The comprehension over a list value: string items are escaped, every
      other item, a dict included, is kept as it is. */
  function EscapeStringItems(items: seq<Json.Value>): (r: seq<Json.Value>)
    ensures |r| == |items|
    ensures forall i :: 0 <= i < |items| && items[i].Str? ==> r[i] == Json.Str(Text.Escape(items[i].s))
    ensures forall i :: 0 <= i < |items| && !items[i].Str? ==> r[i] == items[i]
  {
    seq(|items|, i requires 0 <= i < |items| =>
      if items[i].Str? then Json.Str(Text.Escape(items[i].s)) else items[i])
  }

  /** `sanitize_project_input`: a dict has every key escaped and each value
      sanitized by `SanitizeMember`; anything that is not a dict is returned
      as it is. */
  function SanitizeProjectInput(v: Json.Value): (r: Json.Value)
    decreases v, 0
    ensures !v.Object? ==> r == v
    ensures v.Object? ==> r.Object? && |r.members| == |v.members|
    // keys keep their order; each is escaped
    ensures v.Object? ==> forall i :: 0 <= i < |v.members| ==> r.members[i].0 == Text.Escape(v.members[i].0)
    // each value is sanitized in its own slot
    ensures v.Object? ==> forall i :: 0 <= i < |v.members| ==> r.members[i].1 == SanitizeMember(v.members[i].1)
  {
    match v
    case Object(ms) =>
      Json.Object(seq(|ms|, i requires 0 <= i < |ms| => (Text.Escape(ms[i].0), SanitizeMember(ms[i].1))))
    case _ => v
  }

  /** The reference inverse: unescape exactly what the sanitizer escapes. */
  function RestoreMember(value: Json.Value): Json.Value
    decreases value, 1
  {
    match value
    case Str(s) => Json.Str(Text.Unescape(s))
    case Object(_) => Restore(value)
    case List(items) =>
      Json.List(seq(|items|, i requires 0 <= i < |items| =>
        if items[i].Str? then Json.Str(Text.Unescape(items[i].s)) else items[i]))
    case _ => value
  }

  function Restore(v: Json.Value): Json.Value
    decreases v, 0
  {
    match v
    case Object(ms) =>
      Json.Object(seq(|ms|, i requires 0 <= i < |ms| => (Text.Unescape(ms[i].0), RestoreMember(ms[i].1))))
    case _ => v
  }

  /** Sanitizing loses nothing: every escaped key and string can be read
      back, so the submitted document is recoverable from the stored one. */
  lemma {:induction false} SanitizeRoundTrip(v: Json.Value)
    decreases v, 0
    ensures Restore(SanitizeProjectInput(v)) == v
  {
    match v
    case Object(ms) =>
      var r := Restore(SanitizeProjectInput(v));
      forall i | 0 <= i < |ms|
        ensures r.members[i] == ms[i]
      {
        Text.EscapeRoundTrip(ms[i].0);
        SanitizeMemberRoundTrip(ms[i].1);
      }
    case _ =>
  }

  lemma {:induction false} SanitizeMemberRoundTrip(value: Json.Value)
    decreases value, 1
    ensures RestoreMember(SanitizeMember(value)) == value
  {
    match value
    case Str(s) => Text.EscapeRoundTrip(s);
    case Object(_) => SanitizeRoundTrip(value);
    case List(items) =>
      var r := RestoreMember(SanitizeMember(value));
      forall i | 0 <= i < |items| && items[i].Str?
        ensures r.items[i] == items[i]
      {
        Text.EscapeRoundTrip(items[i].s);
      }
    case _ =>
  }

  /** Hence two different documents are never stored as the same one. */
  lemma SanitizeInjective(a: Json.Value, b: Json.Value)
    requires SanitizeProjectInput(a) == SanitizeProjectInput(b)
    ensures a == b
  {
    SanitizeRoundTrip(a);
    SanitizeRoundTrip(b);
  }

  /** A dict's keys stay distinct: escaped keys cannot collide, so no entry
      of the sanitized dict overwrites another. */
  lemma SanitizeKeepsDistinctKeys(v: Json.Value)
    requires v.Object? && Json.DistinctKeys(v.members)
    ensures Json.DistinctKeys(SanitizeProjectInput(v).members)
  {
    var r := SanitizeProjectInput(v);
    forall i, j | 0 <= i < j < |r.members|
      ensures r.members[i].0 != r.members[j].0
    {
      if r.members[i].0 == r.members[j].0 {
        Text.EscapeInjective(v.members[i].0, v.members[j].0);
      }
    }
  }

  /** A document `json.loads` could produce is sanitized into one it could
      produce too: no object gains a repeated key, at any depth. */
  lemma {:induction false} SanitizeKeepsWellFormed(v: Json.Value)
    decreases v, 0
    requires Json.WellFormed(v)
    ensures Json.WellFormed(SanitizeProjectInput(v))
  {
    match v
    case Object(ms) =>
      var r := SanitizeProjectInput(v);
      SanitizeKeepsDistinctKeys(v);
      forall i | 0 <= i < |ms|
        ensures Json.WellFormed(r.members[i].1)
      {
        SanitizeMemberKeepsWellFormed(ms[i].1);
      }
    case _ =>
  }

  lemma {:induction false} SanitizeMemberKeepsWellFormed(value: Json.Value)
    decreases value, 1
    requires Json.WellFormed(value)
    ensures Json.WellFormed(SanitizeMember(value))
  {
    match value
    case Object(_) => SanitizeKeepsWellFormed(value);
    case List(items) =>
      var r := SanitizeMember(value);
      forall i | 0 <= i < |items|
        ensures Json.WellFormed(r.items[i])
      {
        assert Json.WellFormed(items[i]);
      }
    case _ =>
  }

  predicate NoMarkup(s: string) {
    forall i :: 0 <= i < |s| ==> s[i] != '<' && s[i] != '>' && s[i] != '"' && s[i] != '\''
  }

  /** What the sanitizer reaches: every key and string value of a dict, the
      string items of its lists, and its nested dicts, recursively.  Strings
      inside a dict that sits in a list are not reached. */
  predicate Clean(v: Json.Value)
    decreases v, 0
  {
    match v
    case Object(ms) => forall i :: 0 <= i < |ms| ==> NoMarkup(ms[i].0) && CleanMember(ms[i].1)
    case _ => true
  }

  predicate CleanMember(value: Json.Value)
    decreases value, 1
  {
    match value
    case Str(s) => NoMarkup(s)
    case Object(_) => Clean(value)
    case List(items) => forall i :: 0 <= i < |items| && items[i].Str? ==> NoMarkup(items[i].s)
    case _ => true
  }

  /** Everything the sanitizer reaches comes out free of `< > " '`. */
  lemma {:induction false} SanitizedIsClean(v: Json.Value)
    decreases v, 0
    ensures Clean(SanitizeProjectInput(v))
  {
    match v
    case Object(ms) =>
      var r := SanitizeProjectInput(v);
      forall i | 0 <= i < |ms|
        ensures NoMarkup(r.members[i].0) && CleanMember(r.members[i].1)
      {
        SanitizedMemberIsClean(ms[i].1);
      }
    case _ =>
  }

  lemma {:induction false} SanitizedMemberIsClean(value: Json.Value)
    decreases value, 1
    ensures CleanMember(SanitizeMember(value))
  {
    match value
    case Object(_) => SanitizedIsClean(value);
    case _ =>
  }

  /** The gap the sanitizer leaves: a dict inside a list keeps its markup,
      and so does a top-level string. */
  lemma DictInListKeepsMarkup()
    ensures
      var inner := Json.Object([("k", Json.Str("<b>"))]);
      var v := Json.Object([("items", Json.List([inner]))]);
      && SanitizeProjectInput(v) == Json.Object([("items", Json.List([inner]))])
      && !NoMarkup(SanitizeProjectInput(v).members[0].1.items[0].members[0].1.s)
    ensures SanitizeProjectInput(Json.Str("<b>")) == Json.Str("<b>")
  {
    var inner := Json.Object([("k", Json.Str("<b>"))]);
    var v := Json.Object([("items", Json.List([inner]))]);
    assert Text.Escape("items") == "items";
    assert EscapeStringItems([inner]) == [inner];
    assert SanitizeMember(Json.List([inner])) == Json.List([inner]);
    assert SanitizeProjectInput(v).members[0] == ("items", Json.List([inner]));
    assert "<b>"[0] == '<';
  }

  // ---------------------------------------------------------------------
  // save_project
  // ---------------------------------------------------------------------

  const MaxProjectNameLength := 100
  const MaxEncodedDataLength := 1048576

  /** The name rule: between 1 and 100 characters once stripped. */
  predicate ProjectNameAccepted(name: string) {
    1 <= |Text.Strip(name)| <= MaxProjectNameLength
  }

  /** A name is refused exactly when it is blank or too long after
      stripping. */
  lemma ProjectNameRule(name: string)
    ensures ProjectNameAccepted(name) <==> !Text.AllSpace(name) && |Text.Strip(name)| <= MaxProjectNameLength
  {
    Text.StripEmpty(name);
  }

  /** Python truthiness of a decoded JSON body. */
  predicate Falsy(v: Json.Value) {
    match v
    case Null => true
    case Bool(b) => !b
    case Num(n) => n == 0
    case Str(s) => s == []
    case List(items) => items == []
    case Object(ms) => ms == []
  }

  predicate HasKey(ms: seq<(string, Json.Value)>, key: string) {
    exists i :: 0 <= i < |ms| && ms[i].0 == key
  }

  /** `d[key]`: the value of the first member with that key. */
  function Lookup(ms: seq<(string, Json.Value)>, key: string): (v: Json.Value)
    requires HasKey(ms, key)
    ensures exists i :: 0 <= i < |ms| && ms[i].0 == key && ms[i].1 == v &&
                        forall j :: 0 <= j < i ==> ms[j].0 != key
  {
    if ms[0].0 == key then ms[0].1
    else
      var v := Lookup(ms[1..], key);
      assert forall j :: 1 <= j < |ms| ==> ms[j] == ms[1..][j - 1];
      v
  }

  /** With distinct keys the first member with a key is also the last one,
      which is the one `json.loads` keeps, so `d[key]` is that member's
      value. */
  lemma LookupIsTheDictValue(ms: seq<(string, Json.Value)>, key: string, i: int)
    requires Json.DistinctKeys(ms) && 0 <= i < |ms| && ms[i].0 == key
    ensures HasKey(ms, key) && Lookup(ms, key) == ms[i].1
  {
  }

  /** `t in s` on strings: `t` occurs as a contiguous substring. */
  predicate Contains(s: string, t: string) {
    exists i :: 0 <= i <= |s| && t <= s[i..]
  }

  /** `data.get('data', {})`. */
  function SubmittedData(ms: seq<(string, Json.Value)>): Json.Value {
    if HasKey(ms, "data") then Lookup(ms, "data") else Json.Object([])
  }

  predicate IsDigit(c: char) { '0' <= c <= '9' }

  /** The reference reading of a decimal numeral, `int(s)` on digits. */
  function ParseNat(s: string): nat {
    if s == [] then 0
    else
      var c := s[|s| - 1];
      10 * ParseNat(s[..|s| - 1]) + (if IsDigit(c) then c as int - '0' as int else 0)
  }

  /** Decimal digits of a natural number, as `str(n)` writes them: digits
      only, no leading zero, and read back as `n`. */
  function NatText(n: nat): (r: string)
    ensures |r| > 0
    ensures forall i :: 0 <= i < |r| ==> IsDigit(r[i])
    ensures |r| > 1 ==> r[0] != '0'
    ensures ParseNat(r) == n
    decreases n
  {
    var d := ('0' as int + n % 10) as char;
    if n < 10 then [d]
    else
      var r := NatText(n / 10) + [d];
      assert r[..|r| - 1] == NatText(n / 10);
      r
  }

  /** `str(value)` for a JSON scalar; `str` of a list or dict is Python's
      repr, which is taken as the given `containerText`. */
  function PyStr(value: Json.Value, containerText: string): (r: string)
    ensures value.Str? ==> r == value.s
    // an integer is written in decimal, with a minus sign when negative
    ensures value.Num? && value.n >= 0 ==> ParseNat(r) == value.n && forall i :: 0 <= i < |r| ==> IsDigit(r[i])
    ensures value.Num? && value.n < 0 ==>
      |r| > 1 && r[0] == '-' && ParseNat(r[1..]) == -value.n && forall i :: 1 <= i < |r| ==> IsDigit(r[i])
    ensures value.Object? || value.List? ==> r == containerText
  {
    match value
    case Null => "None"
    case Bool(b) => if b then "True" else "False"
    case Num(n) => if n < 0 then "-" + NatText(-n) else NatText(n)
    case Str(s) => s
    case _ => containerText
  }

  const NameRequiredText := "Project name is required"
  const NameLengthText := "Project name must be 1-100 characters"
  const DataTooLargeText := "Project data too large (max 1MB)"
  const SaveFailedText := "Failed to save project"
  const SavedText := "Project saved successfully"

  /** The body passes the first check of `save_project`: it is truthy and
      `'name' in data`. */
  function NamePresent(data: Json.Value): (present: bool)
    ensures Falsy(data) ==> !present
    // a dict needs the key, a list the string item, a string the substring
    ensures data.Object? ==> (present <==> HasKey(data.members, "name"))
    ensures data.List? ==> (present <==> Json.Str("name") in data.items)
    ensures data.Str? ==> (present <==> Contains(data.s, "name"))
  {
    && !Falsy(data)
    && match data
       case Object(ms) => HasKey(ms, "name")
       case List(items) => Json.Str("name") in items
       case Str(s) => Contains(s, "name")
       // `'name' in` a number or `True` raises, which is not a "name
       // missing" answer
       case _ => true
  }

  /** `save_project`.  `containerText` is `str(data['name'])` when the name
      is a list or dict, `encodedLength` is `len(json.dumps(...))` of the
      sanitized data, and `newUlid` is the primary key the row is created
      with. */
  function SaveProject(
    store: Store, owner: string, data: Json.Value, containerText: string,
    encodedLength: nat, newUlid: string, now: nat): (o: Outcome)
    requires Json.WellFormed(data)
    // a falsy body, or one without a name, is refused first
    ensures !NamePresent(data) ==> o == Outcome(store, Http.Error(400, NameRequiredText))
    // `data['name']` on a non-dict raises, and the handler turns that into
    // the generic failure
    ensures NamePresent(data) && !data.Object? ==> o == Outcome(store, Http.Error(400, SaveFailedText))
    ensures NamePresent(data) && data.Object? ==>
      var name := Text.Strip(PyStr(Lookup(data.members, "name"), containerText));
      var stored := SanitizeProjectInput(SubmittedData(data.members));
      && (!ProjectNameAccepted(PyStr(Lookup(data.members, "name"), containerText)) ==>
            o == Outcome(store, Http.Error(400, NameLengthText)))
      && (o.response.status == 201 <==>
            ProjectNameAccepted(PyStr(Lookup(data.members, "name"), containerText))
            && encodedLength <= MaxEncodedDataLength && newUlid !in store)
      && (o.response.status == 201 ==>
            && o.store == store[newUlid := Project(newUlid, Text.Escape(name), stored, owner, now, now)]
            && o.response == Http.Response(201, Json.Object([("message", Json.Str(SavedText)), ("project_ulid", Json.Str(newUlid))])))
    // on every refusal nothing is stored
    ensures o.response.status != 201 ==> o.store == store && o.response.status == 400
    // a new row never replaces an existing one
    ensures forall id :: id in store ==> id in o.store && o.store[id] == store[id]
  {
    if !NamePresent(data) then Outcome(store, Http.Error(400, NameRequiredText))
    else if !data.Object? then Outcome(store, Http.Error(400, SaveFailedText))
    else
      var ms := data.members;
      var name := Text.Strip(PyStr(Lookup(ms, "name"), containerText));
      if |name| < 1 || |name| > MaxProjectNameLength then Outcome(store, Http.Error(400, NameLengthText))
      else
        var sanitizedName := Text.Escape(name);
        var sanitizedData := SanitizeProjectInput(SubmittedData(ms));
        if encodedLength > MaxEncodedDataLength then Outcome(store, Http.Error(400, DataTooLargeText))
        // a primary-key clash fails the commit, which is rolled back
        else if newUlid in store then Outcome(store, Http.Error(400, SaveFailedText))
        else
          var project := Project(newUlid, sanitizedName, sanitizedData, owner, now, now);
          Outcome(
            store[newUlid := project],
            Http.Response(201, Json.Object([("message", Json.Str(SavedText)), ("project_ulid", Json.Str(newUlid))])))
  }

  /** What `save_project` stores is again a document `json.loads` could
      produce. */
  lemma SavedDataWellFormed(
    store: Store, owner: string, data: Json.Value, containerText: string,
    encodedLength: nat, newUlid: string, now: nat)
    requires Json.WellFormed(data)
    requires SaveProject(store, owner, data, containerText, encodedLength, newUlid, now).response.status == 201
    ensures Json.WellFormed(SaveProject(store, owner, data, containerText, encodedLength, newUlid, now).store[newUlid].data)
  {
    var ms := data.members;
    if HasKey(ms, "data") {
      var i :| 0 <= i < |ms| && ms[i].0 == "data";
      LookupIsTheDictValue(ms, "data", i);
    }
    SanitizeKeepsWellFormed(SubmittedData(ms));
  }

  /** Escaping runs after the length rule, so an accepted name can be stored
      longer than the rule allows: a name of `n` angle brackets is stored as
      `4 * n` characters. */
  lemma {:induction false} EscapedBracketsLength(s: string)
    requires forall i :: 0 <= i < |s| ==> s[i] == '<'
    ensures |Text.Escape(s)| == 4 * |s|
  {
    if s != [] {
      EscapedBracketsLength(s[1..]);
    }
  }

  // ---------------------------------------------------------------------
  // get_project / delete_project
  // ---------------------------------------------------------------------

  const InvalidIdText := "Invalid project identifier"
  const NotFoundText := "Project not found"
  const NotOwnerText := "Access denied - not project owner"
  const DeletedText := "Project deleted successfully"

  /** `Project.to_dict()`; timestamps are rendered as their seconds.  Each
      column is read back under its own key. */
  function ToDict(p: Project): (r: Json.Value)
    ensures r.Object? && Json.DistinctKeys(r.members)
    ensures HasKey(r.members, "project_ulid") && Lookup(r.members, "project_ulid") == Json.Str(p.ulid)
    ensures HasKey(r.members, "name") && Lookup(r.members, "name") == Json.Str(p.name)
    ensures HasKey(r.members, "owner_ulid") && Lookup(r.members, "owner_ulid") == Json.Str(p.owner)
    ensures HasKey(r.members, "created_at") && Lookup(r.members, "created_at") == Json.Num(p.createdAt)
    ensures HasKey(r.members, "updated_at") && Lookup(r.members, "updated_at") == Json.Num(p.updatedAt)
    ensures HasKey(r.members, "data") && Lookup(r.members, "data") == p.data
  {
    var ms := [
      ("project_ulid", Json.Str(p.ulid)),
      ("name", Json.Str(p.name)),
      ("owner_ulid", Json.Str(p.owner)),
      ("created_at", Json.Num(p.createdAt)),
      ("updated_at", Json.Num(p.updatedAt)),
      ("data", p.data)];
    LookupIsTheDictValue(ms, "project_ulid", 0);
    LookupIsTheDictValue(ms, "name", 1);
    LookupIsTheDictValue(ms, "owner_ulid", 2);
    LookupIsTheDictValue(ms, "created_at", 3);
    LookupIsTheDictValue(ms, "updated_at", 4);
    LookupIsTheDictValue(ms, "data", 5);
    Json.Object(ms)
  }

  /** `get_project`; `wellFormed` is the verdict of `is_valid_ulid`. */
  function GetProject(store: Store, id: string, user: string, wellFormed: bool): (r: Http.Response)
    ensures !wellFormed ==> r == Http.Error(400, InvalidIdText)
    // only the owner is shown the project
    ensures r.status == 200 <==> wellFormed && id in store && store[id].owner == user
    ensures r.status == 200 ==> r.body == ToDict(store[id])
    ensures wellFormed && r.status != 200 ==> r == Http.Error(404, NotFoundText)
  {
    if !wellFormed then Http.Error(400, InvalidIdText)
    else if id !in store then Http.Error(404, NotFoundText)
    else if store[id].owner != user then Http.Error(404, NotFoundText)
    else Http.Response(200, ToDict(store[id]))
  }

  /** Somebody else's project is indistinguishable from no project. */
  lemma ForeignProjectLooksMissing(store: Store, id: string, user: string, wellFormed: bool)
    requires id in store && store[id].owner != user
    ensures GetProject(store, id, user, wellFormed) == GetProject(store - {id}, id, user, wellFormed)
  {
  }

  /** `delete_project` (which does not check the identifier's format). */
  function DeleteProject(store: Store, id: string, user: string): (o: Outcome)
    ensures id !in store ==> o == Outcome(store, Http.Error(404, NotFoundText))
    // a foreign project is refused and kept
    ensures id in store && store[id].owner != user ==> o == Outcome(store, Http.Error(403, NotOwnerText))
    ensures o.response.status == 200 <==> id in store && store[id].owner == user
    // the owner's delete removes that project and nothing else
    ensures o.response.status == 200 ==>
      && id !in o.store
      && (forall k :: k in o.store <==> k in store && k != id)
      && (forall k :: k in o.store ==> o.store[k] == store[k])
      && o.response == Http.Message(200, DeletedText)
  {
    if id !in store then Outcome(store, Http.Error(404, NotFoundText))
    else if store[id].owner != user then Outcome(store, Http.Error(403, NotOwnerText))
    else Outcome(store - {id}, Http.Message(200, DeletedText))
  }

  /** The map-level life cycle of one row: inserted under a fresh key, it
      is shown to its owner only, only its owner can delete it, and the
      delete restores the previous table. */
  lemma ProjectLifecycle(store: Store, p: Project, other: string)
    requires p.ulid !in store && p.owner != other
    ensures
      var saved := store[p.ulid := p];
      var deleted := DeleteProject(saved, p.ulid, p.owner).store;
      && GetProject(saved, p.ulid, p.owner, true) == Http.Response(200, ToDict(p))
      && GetProject(saved, p.ulid, other, true) == Http.Error(404, NotFoundText)
      && DeleteProject(saved, p.ulid, other) == Outcome(saved, Http.Error(403, NotOwnerText))
      && deleted == store
      && GetProject(deleted, p.ulid, p.owner, true) == Http.Error(404, NotFoundText)
      && DeleteProject(deleted, p.ulid, p.owner).response == Http.Error(404, NotFoundText)
  {
    assert store[p.ulid := p] - {p.ulid} == store;
  }

  /** Save, read and delete fit together: the owner reads back the row,
      whose data restores to the submitted document, a stranger sees a
      missing project, and after the owner's delete everybody sees a
      missing project and a second delete finds nothing. */
  lemma SaveGetDelete(
    store: Store, owner: string, other: string, data: Json.Value, containerText: string,
    encodedLength: nat, newUlid: string, now: nat)
    requires owner != other && Json.WellFormed(data)
    requires SaveProject(store, owner, data, containerText, encodedLength, newUlid, now).response.status == 201
    ensures
      var saved := SaveProject(store, owner, data, containerText, encodedLength, newUlid, now).store;
      var deleted := DeleteProject(saved, newUlid, owner).store;
      && GetProject(saved, newUlid, owner, true).status == 200
      && Restore(GetProject(saved, newUlid, owner, true).body.members[5].1) == SubmittedData(data.members)
      && GetProject(saved, newUlid, other, true) == Http.Error(404, NotFoundText)
      && DeleteProject(saved, newUlid, other) == Outcome(saved, Http.Error(403, NotOwnerText))
      && deleted == store
      && GetProject(deleted, newUlid, owner, true) == Http.Error(404, NotFoundText)
      && DeleteProject(deleted, newUlid, owner).response == Http.Error(404, NotFoundText)
  {
    var o := SaveProject(store, owner, data, containerText, encodedLength, newUlid, now);
    var p := o.store[newUlid];
    assert o.store == store[newUlid := p] && newUlid !in store;
    assert p.ulid == newUlid && p.owner == owner && p.data == SanitizeProjectInput(SubmittedData(data.members));
    ProjectLifecycle(store, p, other);
    SanitizeRoundTrip(SubmittedData(data.members));
  }
}
