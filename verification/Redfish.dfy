/**
Redfish enumeration: `enumerate` of bmc_redfish.py and `enumerate_request` of bmc_redfish_utils.py.

Both walk a cyclic graph of URIs in rounds.  They differ in which URIs they skip, which statuses they accept
and how they read a `Members` entry; `Mode` carries that difference.  The server is a fixed map from URI to
response.
*/
module Redfish {

  import opened Options

  /** A decoded JSON value.  An object keeps its entries in the order in which Python iterates over them. */
  datatype Json = Text(text: string) | Scalar | List(items: seq<Json>) | Dict(entries: seq<Entry>)

  datatype Entry = Entry(key: string, value: Json)

  datatype Response = Response(status: int, body: Json)

  type Server = string -> Response

  datatype Mode = Enumerate | EnumerateRequest

  const ODATA_ID := "@odata.id"

  // ----- What the two programs do differently -----

  predicate Contains(text: string, part: string)
    decreases |text|
  {
    part <= text || (text != [] && Contains(text[1..], part))
  }

  predicate Skipped(mode: Mode, uri: string) {
    || Contains(uri, "JsonSchemas")
    || Contains(uri, "SessionService")
    || Contains(uri, "#")
    || (mode.EnumerateRequest?
        && (Contains(uri, "PostCodes") || Contains(uri, "Registries") || Contains(uri, "Journal")))
  }

  predicate StandsAt(text: string, part: string, i: nat) {
    i + |part| <= |text| && text[i..i + |part|] == part
  }

  /** The part stands somewhere in the text. */
  predicate Occurs(text: string, part: string) {
    exists i: nat :: i <= |text| && StandsAt(text, part, i)
  }

  lemma StandsLater(text: string, part: string, i: nat)
    requires text != [] && i < |text|
    ensures StandsAt(text, part, i + 1) <==> StandsAt(text[1..], part, i)
  {
    if i + 1 + |part| <= |text| {
      assert text[i + 1..i + 1 + |part|] == text[1..][i..i + |part|];
    }
  }

  lemma {:induction false} ContainsExactly(text: string, part: string)
    ensures Contains(text, part) <==> Occurs(text, part)
    decreases |text|
  {
    assert part <= text <==> StandsAt(text, part, 0);
    if text != [] {
      ContainsExactly(text[1..], part);
      forall i: nat | i < |text|
        ensures StandsAt(text, part, i + 1) <==> StandsAt(text[1..], part, i)
      {
        StandsLater(text, part, i);
      }
      if Occurs(text[1..], part) {
        var i: nat :| i <= |text[1..]| && StandsAt(text[1..], part, i);
        assert StandsAt(text, part, i + 1);
      }
      if Occurs(text, part) && !(part <= text) {
        var i: nat :| i <= |text| && StandsAt(text, part, i);
        assert StandsAt(text, part, i - 1 + 1);
        assert StandsAt(text[1..], part, i - 1);
      }
    }
  }

  /** The resources that an enumeration leaves out, by the words that stand anywhere in their URIs. */
  predicate LeftOut(mode: Mode, uri: string) {
    match mode
    case Enumerate => Occurs(uri, "JsonSchemas") || Occurs(uri, "SessionService") || Occurs(uri, "#")
    case EnumerateRequest =>
      || Occurs(uri, "JsonSchemas") || Occurs(uri, "SessionService") || Occurs(uri, "#")
      || Occurs(uri, "PostCodes") || Occurs(uri, "Registries") || Occurs(uri, "Journal")
  }

  lemma SkippedExactly(mode: Mode, uri: string)
    ensures Skipped(mode, uri) <==> LeftOut(mode, uri)
  {
    ContainsExactly(uri, "JsonSchemas");
    ContainsExactly(uri, "SessionService");
    ContainsExactly(uri, "#");
    ContainsExactly(uri, "PostCodes");
    ContainsExactly(uri, "Registries");
    ContainsExactly(uri, "Journal");
  }

  predicate ValidStatus(mode: Mode, status: int) {
    status == 200 || status == 404 || status == 500 || (mode.EnumerateRequest? && status == 405)
  }

  /** Dictionary lookup; Python keeps the last of several entries with one key. */
  function Lookup(entries: seq<Entry>, key: string): Option<Json>
    decreases |entries|
  {
    if entries == [] then None
    else if entries[|entries| - 1].key == key then Some(entries[|entries| - 1].value)
    else Lookup(entries[..|entries| - 1], key)
  }

  /** The URI that a `Members` entry names; None is a Python exception. */
  function MemberUri(mode: Mode, member: Json): Option<string> {
    if member.Dict? && Lookup(member.entries, ODATA_ID).Some? then AsText(Lookup(member.entries, ODATA_ID).value)
    else if mode.EnumerateRequest? && member.Text? then Some(member.text)
    else if mode.EnumerateRequest? && member.List? && |member.items| > 1 then AsText(member.items[1])
    else None
  }

  function AsText(value: Json): Option<string> {
    if value.Text? then Some(value.text) else None
  }

  function MemberUris(mode: Mode, members: seq<Json>): Option<set<string>>
    decreases |members|
  {
    if members == [] then Some({})
    else
      var rest := MemberUris(mode, members[..|members| - 1]);
      var last := MemberUri(mode, members[|members| - 1]);
      if rest.Some? && last.Some? then Some(rest.value + {last.value}) else None
  }

  function StripSlashes(uri: string): string
    decreases |uri|
  {
    if uri != [] && uri[|uri| - 1] == '/' then StripSlashes(uri[..|uri| - 1]) else uri
  }

  /** What is left is all but the slashes at the end. */
  lemma {:induction false} StripSlashesExactly(uri: string)
    ensures var stripped := StripSlashes(uri);
            && stripped <= uri && (stripped != [] ==> stripped[|stripped| - 1] != '/')
            && forall i :: |stripped| <= i < |uri| ==> uri[i] == '/'
    decreases |uri|
  {
    if uri != [] && uri[|uri| - 1] == '/' {
      StripSlashesExactly(uri[..|uri| - 1]);
    }
  }

  /** The entry that Python finds under the key: the last one that has it. */
  predicate IsLastEntry(entries: seq<Entry>, key: string, i: nat) {
    i < |entries| && entries[i].key == key && forall j :: i < j < |entries| ==> entries[j].key != key
  }

  lemma {:induction false} LookupIsLast(entries: seq<Entry>, key: string)
    ensures match Lookup(entries, key)
            case Some(value) => exists i: nat :: IsLastEntry(entries, key, i) && entries[i].value == value
            case None => forall i :: 0 <= i < |entries| ==> entries[i].key != key
    decreases |entries|
  {
    if entries != [] {
      var n := |entries| - 1;
      if entries[n].key == key {
        assert IsLastEntry(entries, key, n);
      } else {
        LookupIsLast(entries[..n], key);
        if Lookup(entries[..n], key).Some? {
          var i: nat :| IsLastEntry(entries[..n], key, i) && entries[..n][i].value == Lookup(entries[..n], key).value;
          assert IsLastEntry(entries, key, i);
        }
      }
    }
  }

  /** The URI that a `Members` entry names: the id of a dictionary; for `enumerate_request` also a bare string, or the
      second item of a list. */
  lemma MemberUriExactly(mode: Mode, member: Json, uri: string)
    ensures MemberUri(mode, member) == Some(uri) <==>
            || (member.Dict? && exists i: nat ::
                  IsLastEntry(member.entries, "@odata.id", i) && member.entries[i].value == Text(uri))
            || (mode.EnumerateRequest? && member == Text(uri))
            || (mode.EnumerateRequest? && member.List? && |member.items| > 1 && member.items[1] == Text(uri))
  {
    if member.Dict? {
      LookupIsLast(member.entries, "@odata.id");
    }
  }

  // ----- What one walk finds -----

  /** The URIs a walk adds to the pending set and the entries it writes to the result. */
  datatype Found = Found(links: set<string>, writes: map<string, Json>)

  function Combine(a: Option<Found>, b: Option<Found>): Option<Found> {
    if a.Some? && b.Some? then Some(Found(a.value.links + b.value.links, a.value.writes + b.value.writes)) else None
  }

  /** `walk_nested_dict` on data whose entries are given; None is a Python exception. */
  function Walk(mode: Mode, data: Json, entries: seq<Entry>, url: string): Option<Found>
    decreases entries, 1
  {
    if entries == [] then Some(Found({}, map[]))
    else
      var n := |entries| - 1;
      Combine(Walk(mode, data, entries[..n], url), WalkEntry(mode, data, entries[n], url))
  }

  function WalkEntry(mode: Mode, data: Json, entry: Entry, url: string): Option<Found>
    decreases entry, 0
  {
    match entry.value
    case Dict(inner) => Walk(mode, entry.value, inner, "")
    case List(items) =>
      if entry.key == "Members" then
        var uris := MemberUris(mode, items);
        if uris.Some? then Some(Found(uris.value, map[])) else None
      else if entry.key == ODATA_ID then None
      else Some(Found({}, map[]))
    case Text(text) =>
      if entry.key == ODATA_ID then
        var uri := StripSlashes(text);
        if uri == url then Some(Found({}, map[url := data])) else Some(Found({uri}, map[]))
      else Some(Found({}, map[]))
    case Scalar => if entry.key == ODATA_ID then None else Some(Found({}, map[]))
  }

  /** What visiting a URI finds when its body is walked. */
  function Visit(mode: Mode, server: Server, uri: string): Option<Found> {
    var body := server(uri).body;
    if body.Dict? then Walk(mode, body, body.entries, StripSlashes(uri)) else None
  }

  // ----- What a walk finds, without walking -----

  /** The entries of the dictionary reached from the data by entering nested dictionaries only, one entry index at a
      time. */
  function EntriesAt(data: Json, path: seq<nat>): seq<Entry>
    decreases |path|
  {
    if !data.Dict? then []
    else if path == [] then data.entries
    else if path[0] < |data.entries| then EntriesAt(data.entries[path[0]].value, path[1..])
    else []
  }

  /** The entry itself names the URI: as another resource's "@odata.id", stripped, or as a member, unstripped. */
  predicate LinkHere(mode: Mode, entry: Entry, url: string, uri: string) {
    || (entry.key == "@odata.id" && entry.value.Text? && StripSlashes(entry.value.text) == uri && uri != url)
    || (entry.key == "Members" && entry.value.List? && MembersName(mode, entry.value.items, uri))
  }

  predicate MembersName(mode: Mode, members: seq<Json>, uri: string) {
    exists i :: 0 <= i < |members| && MemberUri(mode, members[i]) == Some(uri)
  }

  /** The entry itself makes the walk raise an exception. */
  predicate BadHere(mode: Mode, entry: Entry) {
    || (entry.key == "@odata.id" && !entry.value.Text? && !entry.value.Dict?)
    || (entry.key == "Members" && entry.value.List?
        && exists i :: 0 <= i < |entry.value.items| && MemberUri(mode, entry.value.items[i]).None?)
  }

  predicate LinkAt(mode: Mode, data: Json, url: string, uri: string, path: seq<nat>, i: nat) {
    i < |EntriesAt(data, path)| && LinkHere(mode, EntriesAt(data, path)[i], if path == [] then url else "", uri)
  }

  predicate BadAt(mode: Mode, data: Json, path: seq<nat>, i: nat) {
    i < |EntriesAt(data, path)| && BadHere(mode, EntriesAt(data, path)[i])
  }

  ghost predicate LinksTo(mode: Mode, data: Json, url: string, uri: string) {
    exists path: seq<nat>, i: nat :: LinkAt(mode, data, url, uri, path, i)
  }

  ghost predicate HasBadEntry(mode: Mode, data: Json) {
    exists path: seq<nat>, i: nat :: BadAt(mode, data, path, i)
  }

  /** The entry, or the nested dictionary it holds, names the URI. */
  ghost predicate LinkUnder(mode: Mode, entry: Entry, url: string, uri: string) {
    LinkHere(mode, entry, url, uri) || LinksTo(mode, entry.value, "", uri)
  }

  ghost predicate BadUnder(mode: Mode, entry: Entry) {
    BadHere(mode, entry) || HasBadEntry(mode, entry.value)
  }

  lemma LinksToSplits(mode: Mode, data: Json, url: string, uri: string)
    requires data.Dict?
    ensures LinksTo(mode, data, url, uri)
            <==> exists k :: 0 <= k < |data.entries| && LinkUnder(mode, data.entries[k], url, uri)
  {
    if LinksTo(mode, data, url, uri) {
      var path: seq<nat>, i: nat :| LinkAt(mode, data, url, uri, path, i);
      if path == [] {
        assert LinkUnder(mode, data.entries[i], url, uri);
      } else {
        assert LinkAt(mode, data.entries[path[0]].value, "", uri, path[1..], i);
        assert LinkUnder(mode, data.entries[path[0]], url, uri);
      }
    }
    forall k | 0 <= k < |data.entries| && LinkUnder(mode, data.entries[k], url, uri)
      ensures LinksTo(mode, data, url, uri)
    {
      if LinkHere(mode, data.entries[k], url, uri) {
        assert LinkAt(mode, data, url, uri, [], k);
      } else {
        var path: seq<nat>, i: nat :| LinkAt(mode, data.entries[k].value, "", uri, path, i);
        assert ([k] + path)[1..] == path;
        assert LinkAt(mode, data, url, uri, [k] + path, i);
      }
    }
  }

  lemma HasBadEntrySplits(mode: Mode, data: Json)
    requires data.Dict?
    ensures HasBadEntry(mode, data) <==> exists k :: 0 <= k < |data.entries| && BadUnder(mode, data.entries[k])
  {
    if HasBadEntry(mode, data) {
      var path: seq<nat>, i: nat :| BadAt(mode, data, path, i);
      if path == [] {
        assert BadUnder(mode, data.entries[i]);
      } else {
        assert BadAt(mode, data.entries[path[0]].value, path[1..], i);
        assert BadUnder(mode, data.entries[path[0]]);
      }
    }
    forall k | 0 <= k < |data.entries| && BadUnder(mode, data.entries[k])
      ensures HasBadEntry(mode, data)
    {
      if BadHere(mode, data.entries[k]) {
        assert BadAt(mode, data, [], k);
      } else {
        var path: seq<nat>, i: nat :| BadAt(mode, data.entries[k].value, path, i);
        assert ([k] + path)[1..] == path;
        assert BadAt(mode, data, [k] + path, i);
      }
    }
  }

  lemma {:induction false} MemberUrisAreNamed(mode: Mode, members: seq<Json>, uri: string)
    ensures MemberUris(mode, members).None? <==> exists i :: 0 <= i < |members| && MemberUri(mode, members[i]).None?
    ensures MemberUris(mode, members).Some? ==>
              (uri in MemberUris(mode, members).value <==> MembersName(mode, members, uri))
    decreases |members|
  {
    if members != [] {
      var init := members[..|members| - 1];
      MemberUrisAreNamed(mode, init, uri);
      assert forall i :: 0 <= i < |init| ==> members[i] == init[i];
    }
  }

  lemma NothingNested(mode: Mode, value: Json, uri: string)
    requires !value.Dict?
    ensures !LinksTo(mode, value, "", uri) && !HasBadEntry(mode, value)
  {
  }

  lemma {:induction false} EntryFinds(mode: Mode, data: Json, entry: Entry, url: string, uri: string)
    ensures WalkEntry(mode, data, entry, url).None? <==> BadUnder(mode, entry)
    ensures WalkEntry(mode, data, entry, url).Some? ==>
              (uri in WalkEntry(mode, data, entry, url).value.links <==> LinkUnder(mode, entry, url, uri))
    decreases entry, 0
  {
    match entry.value
    case Dict(inner) =>
      LinksToSplits(mode, entry.value, "", uri);
      HasBadEntrySplits(mode, entry.value);
      EntriesFind(mode, entry.value, inner, "", uri);
    case List(items) =>
      NothingNested(mode, entry.value, uri);
      MemberUrisAreNamed(mode, items, uri);
    case _ =>
      NothingNested(mode, entry.value, uri);
  }

  lemma {:induction false} EntriesFind(mode: Mode, data: Json, entries: seq<Entry>, url: string, uri: string)
    ensures Walk(mode, data, entries, url).None? <==> exists k :: 0 <= k < |entries| && BadUnder(mode, entries[k])
    ensures Walk(mode, data, entries, url).Some? ==>
              (uri in Walk(mode, data, entries, url).value.links <==>
               exists k :: 0 <= k < |entries| && LinkUnder(mode, entries[k], url, uri))
    decreases entries, 1
  {
    if entries != [] {
      var n := |entries| - 1;
      EntriesFind(mode, data, entries[..n], url, uri);
      EntryFinds(mode, data, entries[n], url, uri);
      assert forall k :: 0 <= k < n ==> entries[..n][k] == entries[k];
    }
  }

  /** `walk_nested_dict` finds exactly the URIs named anywhere in the nested dictionaries, lists being entered only
      for the direct members of a collection, and raises an exception exactly when some entry there cannot be read. */
  lemma WalkFindsExactly(mode: Mode, data: Json, url: string, uri: string)
    requires data.Dict?
    ensures Walk(mode, data, data.entries, url).None? <==> HasBadEntry(mode, data)
    ensures Walk(mode, data, data.entries, url).Some? ==>
              (uri in Walk(mode, data, data.entries, url).value.links <==> LinksTo(mode, data, url, uri))
  {
    LinksToSplits(mode, data, url, uri);
    HasBadEntrySplits(mode, data);
    EntriesFind(mode, data, data.entries, url, uri);
  }

  // ----- What a walk writes, without walking -----

  /** The dictionary reached from the data by entering nested dictionaries only. */
  function DictAt(data: Json, path: seq<nat>): Json
    decreases |path|
  {
    if path != [] && data.Dict? && path[0] < |data.entries| then DictAt(data.entries[path[0]].value, path[1..])
    else data
  }

  /** The dictionary there carries, in its i-th entry, the stripped id under which it is written: the walked URL for
      the data itself, the empty string for what is nested in it. */
  predicate WriteAt(data: Json, url: string, key: string, value: Json, path: seq<nat>, i: nat) {
    && i < |EntriesAt(data, path)| && WriteHere(EntriesAt(data, path)[i], if path == [] then url else "", key)
    && value == DictAt(data, path)
  }

  predicate WriteHere(entry: Entry, url: string, key: string) {
    entry.key == "@odata.id" && entry.value.Text? && StripSlashes(entry.value.text) == key && key == url
  }

  ghost predicate WritesTo(data: Json, url: string, key: string, value: Json) {
    exists path: seq<nat>, i: nat :: WriteAt(data, url, key, value, path, i)
  }

  /** The entry of the data writes the data, or the nested dictionary it holds writes one of its own. */
  ghost predicate WriteUnder(data: Json, entry: Entry, url: string, key: string, value: Json) {
    (WriteHere(entry, url, key) && value == data) || (entry.value.Dict? && WritesTo(entry.value, "", key, value))
  }

  lemma WritesToSplits(data: Json, url: string, key: string, value: Json)
    requires data.Dict?
    ensures WritesTo(data, url, key, value) <==>
            exists k :: 0 <= k < |data.entries| && WriteUnder(data, data.entries[k], url, key, value)
  {
    if WritesTo(data, url, key, value) {
      var path: seq<nat>, i: nat :| WriteAt(data, url, key, value, path, i);
      if path == [] {
        assert WriteUnder(data, data.entries[i], url, key, value);
      } else {
        assert WriteAt(data.entries[path[0]].value, "", key, value, path[1..], i);
        assert WriteUnder(data, data.entries[path[0]], url, key, value);
      }
    }
    forall k | 0 <= k < |data.entries| && WriteUnder(data, data.entries[k], url, key, value)
      ensures WritesTo(data, url, key, value)
    {
      if WriteHere(data.entries[k], url, key) && value == data {
        assert WriteAt(data, url, key, value, [], k);
      } else {
        var path: seq<nat>, i: nat :| WriteAt(data.entries[k].value, "", key, value, path, i);
        assert ([k] + path)[1..] == path;
        assert WriteAt(data, url, key, value, [k] + path, i);
      }
    }
  }

  /** What the entries write is written by one of them, and whatever one of them writes has an entry. */
  ghost predicate WrittenUnder(data: Json, entries: seq<Entry>, url: string, writes: map<string, Json>) {
    && (forall k :: k in writes ==> exists i :: 0 <= i < |entries| && WriteUnder(data, entries[i], url, k, writes[k]))
    && (forall i, k, v :: 0 <= i < |entries| && WriteUnder(data, entries[i], url, k, v) ==> k in writes)
  }

  lemma {:induction false} EntryWrites(mode: Mode, data: Json, entry: Entry, url: string)
    requires WalkEntry(mode, data, entry, url).Some?
    ensures WrittenUnder(data, [entry], url, WalkEntry(mode, data, entry, url).value.writes)
    decreases entry, 0
  {
    var writes := WalkEntry(mode, data, entry, url).value.writes;
    assert [entry][0] == entry;
    if entry.value.Dict? {
      var inner := entry.value.entries;
      EntriesWrite(mode, entry.value, inner, "");
      forall k, v
        ensures WriteUnder(data, entry, url, k, v) <==>
                exists i :: 0 <= i < |inner| && WriteUnder(entry.value, inner[i], "", k, v)
      {
        WritesToSplits(entry.value, "", k, v);
      }
      forall k | k in writes
        ensures WriteUnder(data, [entry][0], url, k, writes[k])
      {
      }
    } else {
      forall k | k in writes
        ensures WriteUnder(data, [entry][0], url, k, writes[k])
      {
      }
    }
  }

  lemma {:induction false} EntriesWrite(mode: Mode, data: Json, entries: seq<Entry>, url: string)
    requires Walk(mode, data, entries, url).Some?
    ensures WrittenUnder(data, entries, url, Walk(mode, data, entries, url).value.writes)
    decreases entries, 1
  {
    if entries != [] {
      var n := |entries| - 1;
      EntriesWrite(mode, data, entries[..n], url);
      EntryWrites(mode, data, entries[n], url);
      WrittenJoins(data, entries[..n], entries[n], url, Walk(mode, data, entries[..n], url).value.writes,
                   WalkEntry(mode, data, entries[n], url).value.writes);
      assert entries[..n] + [entries[n]] == entries;
    }
  }

  lemma WrittenJoins(data: Json, init: seq<Entry>, last: Entry, url: string, a: map<string, Json>, b: map<string, Json>)
    requires WrittenUnder(data, init, url, a) && WrittenUnder(data, [last], url, b)
    ensures WrittenUnder(data, init + [last], url, a + b)
  {
    var entries := init + [last];
    forall k | k in a + b
      ensures exists i :: 0 <= i < |entries| && WriteUnder(data, entries[i], url, k, (a + b)[k])
    {
      if k in b {
        var i :| 0 <= i < |[last]| && WriteUnder(data, [last][i], url, k, b[k]);
        assert WriteUnder(data, entries[|init|], url, k, b[k]);
      } else {
        var i :| 0 <= i < |init| && WriteUnder(data, init[i], url, k, a[k]);
        assert WriteUnder(data, entries[i], url, k, a[k]);
      }
    }
    forall i, k, v | 0 <= i < |entries| && WriteUnder(data, entries[i], url, k, v)
      ensures k in a + b
    {
      if i < |init| {
        assert WriteUnder(data, init[i], url, k, v);
      } else {
        assert WriteUnder(data, [last][0], url, k, v);
      }
    }
  }

  lemma WrittenKey(data: Json, url: string, writes: map<string, Json>, key: string, value: Json)
    requires data.Dict? && WrittenUnder(data, data.entries, url, writes) && WritesTo(data, url, key, value)
    ensures key in writes
  {
    WritesToSplits(data, url, key, value);
    var k :| 0 <= k < |data.entries| && WriteUnder(data, data.entries[k], url, key, value);
  }

  lemma WrittenValue(data: Json, url: string, writes: map<string, Json>, key: string)
    requires data.Dict? && WrittenUnder(data, data.entries, url, writes) && key in writes
    ensures WritesTo(data, url, key, writes[key])
  {
    WritesToSplits(data, url, key, writes[key]);
  }

  /** A walk writes exactly under the keys that some dictionary carries as its own, and each entry is such a dictionary:
      the walked data under the walked URL, a nested dictionary under the empty string. */
  lemma WalkWritesExactly(mode: Mode, data: Json, url: string, key: string)
    requires data.Dict? && Walk(mode, data, data.entries, url).Some?
    ensures var writes := Walk(mode, data, data.entries, url).value.writes;
            && (key in writes ==> WritesTo(data, url, key, writes[key]))
            && forall value :: WritesTo(data, url, key, value) ==> key in writes
  {
    var writes := Walk(mode, data, data.entries, url).value.writes;
    EntriesWrite(mode, data, data.entries, url);
    if key in writes {
      WrittenValue(data, url, writes, key);
    }
    forall value | WritesTo(data, url, key, value)
      ensures key in writes
    {
      WrittenKey(data, url, writes, key, value);
    }
  }

  // ----- The graph -----

  predicate Live(mode: Mode, server: Server, uri: string) {
    !Skipped(mode, uri) && server(uri).status == 200
  }

  predicate Dead(mode: Mode, server: Server, uri: string) {
    !Skipped(mode, uri) && server(uri).status != 200 && ValidStatus(mode, server(uri).status)
  }

  /** Visiting the URI raises an exception. */
  predicate Fatal(mode: Mode, server: Server, uri: string) {
    && !Skipped(mode, uri)
    && (!ValidStatus(mode, server(uri).status) || (server(uri).status == 200 && Visit(mode, server, uri).None?))
  }

  /** What becomes of a resource that is reached, by its URI and its status alone: left out, walked, recorded as dead,
      or an exception. */
  lemma StatusDecides(mode: Mode, server: Server, uri: string)
    ensures Live(mode, server, uri) <==> !LeftOut(mode, uri) && server(uri).status == 200
    ensures Dead(mode, server, uri) <==>
            && !LeftOut(mode, uri)
            && (server(uri).status == 404 || server(uri).status == 500
                || (mode.EnumerateRequest? && server(uri).status == 405))
    ensures Fatal(mode, server, uri) <==>
            && !LeftOut(mode, uri)
            && (if server(uri).status == 200 then !server(uri).body.Dict? || HasBadEntry(mode, server(uri).body)
                else server(uri).status != 404 && server(uri).status != 500
                     && !(mode.EnumerateRequest? && server(uri).status == 405))
  {
    SkippedExactly(mode, uri);
    var body := server(uri).body;
    if body.Dict? {
      WalkFindsExactly(mode, body, StripSlashes(uri), "");
    }
  }

  function Links(mode: Mode, server: Server, uri: string): set<string> {
    if Live(mode, server, uri) && Visit(mode, server, uri).Some? then Visit(mode, server, uri).value.links else {}
  }

  function Writes(mode: Mode, server: Server, uri: string): map<string, Json> {
    if Live(mode, server, uri) && Visit(mode, server, uri).Some? then Visit(mode, server, uri).value.writes else map[]
  }

  ghost predicate Closed(mode: Mode, server: Server, uris: set<string>) {
    forall u :: u in uris ==> Links(mode, server, u) <= uris
  }

  /** A chain of links from start to uri. */
  predicate Path(mode: Mode, server: Server, start: string, path: seq<string>, uri: string)
    decreases |path|
  {
    if path == [] then start == uri
    else
      var n := |path| - 1;
      uri in Links(mode, server, path[n]) && Path(mode, server, start, path[..n], path[n])
  }

  ghost predicate Reachable(mode: Mode, server: Server, start: string, uri: string) {
    exists path :: Path(mode, server, start, path, uri)
  }

  lemma ReachableStep(mode: Mode, server: Server, start: string, u: string, v: string)
    requires Reachable(mode, server, start, u) && v in Links(mode, server, u)
    ensures Reachable(mode, server, start, v)
  {
    var path :| Path(mode, server, start, path, u);
    assert (path + [u])[..|path|] == path;
    assert Path(mode, server, start, path + [u], v);
  }

  lemma {:induction false} PathStaysInside(mode: Mode, server: Server, start: string, path: seq<string>, uri: string,
                                           c: set<string>)
    requires start in c && Closed(mode, server, c) && Path(mode, server, start, path, uri)
    ensures uri in c
    decreases |path|
  {
    if path != [] {
      PathStaysInside(mode, server, start, path[..|path| - 1], path[|path| - 1], c);
    }
  }

  /** The reached set is the least closed set that contains the start. */
  ghost predicate ReachedSet(mode: Mode, server: Server, start: string, uris: set<string>) {
    forall u :: u in uris <==> Reachable(mode, server, start, u)
  }

  lemma ReachedSetIsLeast(mode: Mode, server: Server, start: string, uris: set<string>)
    ensures ReachedSet(mode, server, start, uris) <==>
            && start in uris && Closed(mode, server, uris)
            && forall c: set<string> :: start in c && Closed(mode, server, c) ==> uris <= c
  {
    assert Path(mode, server, start, [], start);
    if ReachedSet(mode, server, start, uris) {
      forall u, v | u in uris && v in Links(mode, server, u)
        ensures v in uris
      {
        ReachableStep(mode, server, start, u, v);
      }
      forall c: set<string>, u | start in c && Closed(mode, server, c) && u in uris
        ensures u in c
      {
        var path :| Path(mode, server, start, path, u);
        PathStaysInside(mode, server, start, path, u, c);
      }
    }
    if && start in uris && Closed(mode, server, uris)
       && forall c: set<string> :: start in c && Closed(mode, server, c) ==> uris <= c
    {
      forall u
        ensures u in uris <==> Reachable(mode, server, start, u)
      {
        if Reachable(mode, server, start, u) {
          var path :| Path(mode, server, start, path, u);
          PathStaysInside(mode, server, start, path, u, uris);
        }
        var c := set v | v in uris && Reachable(mode, server, start, v);
        forall v, w | v in c && w in Links(mode, server, v)
          ensures w in c
        {
          ReachableStep(mode, server, start, v, w);
        }
        assert Reachable(mode, server, start, start);
        assert uris <= c;
      }
    }
  }

  /** The reached set, as a finite set inside a closed universe of URIs. */
  ghost function Reached(mode: Mode, server: Server, start: string, universe: set<string>): set<string> {
    set u | u in universe && Reachable(mode, server, start, u)
  }

  lemma ReachedIsReachedSet(mode: Mode, server: Server, start: string, universe: set<string>)
    requires start in universe && Closed(mode, server, universe)
    ensures ReachedSet(mode, server, start, Reached(mode, server, start, universe))
  {
    forall u | Reachable(mode, server, start, u)
      ensures u in universe
    {
      var path :| Path(mode, server, start, path, u);
      PathStaysInside(mode, server, start, path, u, universe);
    }
  }

  // ----- Rounds -----

  /** What each URI links to. */
  type Graph = string -> set<string>

  function LinkGraph(mode: Mode, server: Server): Graph {
    (u: string) => Links(mode, server, u)
  }

  function Successors(graph: Graph, uris: set<string>): set<string> {
    set u, v | u in uris && v in graph(u) :: v
  }

  /** The URIs that the first n rounds visit: those that fewer than n links lead to. */
  function Within(graph: Graph, start: string, n: nat): set<string> {
    if n == 0 then {} else {start} + Successors(graph, Within(graph, start, n - 1))
  }

  lemma {:induction false} WithinGrows(graph: Graph, start: string, n: nat)
    ensures Within(graph, start, n) <= Within(graph, start, n + 1)
  {
    if n > 0 {
      WithinGrows(graph, start, n - 1);
    }
  }

  lemma {:induction false} WithinIsMonotone(graph: Graph, start: string, m: nat, n: nat)
    requires m <= n
    ensures Within(graph, start, m) <= Within(graph, start, n)
    decreases n
  {
    if m < n {
      WithinIsMonotone(graph, start, m, n - 1);
      WithinGrows(graph, start, n - 1);
    }
  }

  lemma WithinByLink(graph: Graph, start: string, n: nat, uri: string) returns (u: string)
    requires uri in Within(graph, start, n) && uri != start
    ensures n > 0 && u in Within(graph, start, n - 1) && uri in graph(u)
  {
    u :| u in Within(graph, start, n - 1) && uri in graph(u);
  }

  lemma {:induction false} WithinIsReached(mode: Mode, server: Server, start: string, n: nat, uri: string)
    requires uri in Within(LinkGraph(mode, server), start, n)
    ensures Reachable(mode, server, start, uri)
  {
    if uri == start {
      assert Path(mode, server, start, [], uri);
    } else {
      var u := WithinByLink(LinkGraph(mode, server), start, n, uri);
      WithinIsReached(mode, server, start, n - 1, u);
      ReachableStep(mode, server, start, u, uri);
    }
  }

  lemma {:induction false} PathIsWithin(mode: Mode, server: Server, start: string, path: seq<string>, uri: string)
    requires Path(mode, server, start, path, uri)
    ensures uri in Within(LinkGraph(mode, server), start, |path| + 1)
    decreases |path|
  {
    if path != [] {
      var u := path[|path| - 1];
      PathIsWithin(mode, server, start, path[..|path| - 1], u);
      assert uri in LinkGraph(mode, server)(u);
    }
  }

  /** The visits come round after round: no URI is visited before one that fewer links lead to. */
  ghost predicate RoundByRound(graph: Graph, start: string, visits: seq<string>) {
    forall i, j, n: nat :: 0 <= i < j < |visits| && visits[j] in Within(graph, start, n)
                           ==> visits[i] in Within(graph, start, n)
  }

  /** An order in which an enumeration may issue its GET requests: each URI that is reached and not skipped once,
      round after round, in any order within a round. */
  ghost predicate InSomeOrder(mode: Mode, server: Server, start: string, reached: set<string>, gets: seq<string>) {
    VisitLog(mode, reached, gets) && RoundByRound(LinkGraph(mode, server), start, gets)
  }

  /** After n rounds come visits of the next one. */
  lemma RoundAfterRound(graph: Graph, start: string, n: nat, before: seq<string>, gets: seq<string>)
    requires before <= gets && RoundByRound(graph, start, before)
    requires forall u :: u in before ==> u in Within(graph, start, n)
    requires forall i :: |before| <= i < |gets| ==> gets[i] in Within(graph, start, n + 1) - Within(graph, start, n)
    ensures RoundByRound(graph, start, gets)
  {
    forall i, j, m: nat | 0 <= i < j < |gets| && gets[j] in Within(graph, start, m)
      ensures gets[i] in Within(graph, start, m)
    {
      if j < |before| {
        assert before[j] in Within(graph, start, m);
      } else if m <= n {
        WithinIsMonotone(graph, start, m, n);
        assert false;
      } else {
        WithinGrows(graph, start, n);
        WithinIsMonotone(graph, start, n + 1, m);
      }
    }
  }

  /** What a round adds to the pending set are links of the URIs visited in it. */
  ghost predicate FoundInRound(mode: Mode, server: Server, before: set<string>, round: set<string>,
                               pending: set<string>)
  {
    forall v :: v in pending ==> v in before || exists u :: u in round && v in Links(mode, server, u)
  }

  /** The pending set holds what the next round visits. */
  lemma FoundIsNextRound(mode: Mode, server: Server, start: string, n: nat, before: set<string>, round: set<string>,
                         pending: set<string>)
    requires before == Within(LinkGraph(mode, server), start, n + 1) && round <= before
    requires before <= pending && FoundInRound(mode, server, before, round, pending)
    requires NoneFatal(mode, server, before, pending)
    ensures pending == Within(LinkGraph(mode, server), start, n + 2)
  {
    var graph := LinkGraph(mode, server);
    WithinGrows(graph, start, n + 1);
    forall v | v in pending
      ensures v in Within(graph, start, n + 2)
    {
      if v !in before {
        var u :| u in round && v in Links(mode, server, u);
        assert v in graph(u);
      }
    }
    forall u, v | u in before && v in graph(u)
      ensures v in pending
    {
      assert v in Links(mode, server, u);
    }
  }

  lemma FirstRound(graph: Graph, start: string)
    ensures Within(graph, start, 1) == {start}
  {
  }

  lemma WithinReached(mode: Mode, server: Server, start: string, n: nat, universe: set<string>)
    requires start in universe && Closed(mode, server, universe)
    ensures Within(LinkGraph(mode, server), start, n) <= Reached(mode, server, start, universe)
  {
    ReachedIsReachedSet(mode, server, start, universe);
    forall u | u in Within(LinkGraph(mode, server), start, n)
      ensures Reachable(mode, server, start, u)
    {
      WithinIsReached(mode, server, start, n, u);
    }
  }

  lemma WithinIsClosed(graph: Graph, start: string, n: nat, u: string)
    requires Within(graph, start, n + 1) <= Within(graph, start, n) && u in Within(graph, start, n)
    ensures start in Within(graph, start, n) && graph(u) <= Within(graph, start, n)
  {
    assert forall v :: v in graph(u) ==> v in Successors(graph, Within(graph, start, n));
    assert start in Within(graph, start, n + 1);
  }

  /** When a round finds nothing new, what was visited is the reached set. */
  lemma ExhaustedIsReached(mode: Mode, server: Server, start: string, n: nat, universe: set<string>)
    requires start in universe && Closed(mode, server, universe)
    requires Within(LinkGraph(mode, server), start, n + 1) <= Within(LinkGraph(mode, server), start, n)
    ensures Within(LinkGraph(mode, server), start, n) == Reached(mode, server, start, universe)
  {
    var graph := LinkGraph(mode, server);
    var done := Within(graph, start, n);
    assert start in Within(graph, start, n + 1);
    forall u | u in done
      ensures Links(mode, server, u) <= done
    {
      WithinIsClosed(graph, start, n, u);
      assert graph(u) == Links(mode, server, u);
    }
    WithinReached(mode, server, start, n, universe);
    ReachedIsReachedSet(mode, server, start, universe);
    ReachedSetIsLeast(mode, server, start, Reached(mode, server, start, universe));
  }

  // ----- What a sequence of visits leaves behind -----

  function ResultAfter(mode: Mode, server: Server, visits: seq<string>): map<string, Json>
    decreases |visits|
  {
    if visits == [] then map[]
    else ResultAfter(mode, server, visits[..|visits| - 1]) + Writes(mode, server, visits[|visits| - 1])
  }

  function AddDead(dead: map<int, seq<string>>, status: int, uri: string): map<int, seq<string>> {
    dead[status := (if status in dead then dead[status] else []) + [uri]]
  }

  function DeadAfter(mode: Mode, server: Server, visits: seq<string>): map<int, seq<string>>
    decreases |visits|
  {
    if visits == [] then map[]
    else
      var uri := visits[|visits| - 1];
      var before := DeadAfter(mode, server, visits[..|visits| - 1]);
      if Dead(mode, server, uri) then AddDead(before, server(uri).status, uri) else before
  }

  predicate Distinct(uris: seq<string>) {
    forall i, j :: 0 <= i < j < |uris| ==> uris[i] != uris[j]
  }

  /** The GET requests issued for the visited URIs: one for each that is not skipped. */
  ghost predicate VisitLog(mode: Mode, done: set<string>, gets: seq<string>) {
    Distinct(gets) && forall u :: u in gets <==> u in done && !Skipped(mode, u)
  }

  lemma LogOneMore(mode: Mode, done: set<string>, gets: seq<string>, uri: string)
    requires VisitLog(mode, done, gets) && uri !in done
    ensures VisitLog(mode, done + {uri}, if Skipped(mode, uri) then gets else gets + [uri])
  {
  }

  lemma AfterOneMore(mode: Mode, server: Server, visits: seq<string>, uri: string)
    ensures ResultAfter(mode, server, visits + [uri]) == ResultAfter(mode, server, visits) + Writes(mode, server, uri)
    ensures DeadAfter(mode, server, visits + [uri])
            == var before := DeadAfter(mode, server, visits);
               if Dead(mode, server, uri) then AddDead(before, server(uri).status, uri) else before
    ensures Skipped(mode, uri) ==> Writes(mode, server, uri) == map[] && !Dead(mode, server, uri)
  {
    assert (visits + [uri])[..|visits|] == visits;
  }

  /** No visited URI raises an exception, and all their links are pending or visited. */
  ghost predicate NoneFatal(mode: Mode, server: Server, done: set<string>, pending: set<string>) {
    forall u :: u in done ==> !Fatal(mode, server, u) && Links(mode, server, u) <= pending
  }

  lemma NoneFatalOneMore(mode: Mode, server: Server, done: set<string>, pending: set<string>, uri: string)
    requires NoneFatal(mode, server, done, pending) && !Fatal(mode, server, uri)
    ensures NoneFatal(mode, server, done + {uri}, pending + Links(mode, server, uri))
  {
  }

  /** The result and the dead resources are those of the GET requests issued, in the order they were issued. */
  ghost predicate LeftBehind(mode: Mode, server: Server, includeDead: bool, gets: seq<string>,
                             result: map<string, Json>, dead: map<int, seq<string>>)
  {
    && result == ResultAfter(mode, server, gets)
    && dead == if includeDead then DeadAfter(mode, server, gets) else map[]
  }

  lemma LeftBehindOneMore(mode: Mode, server: Server, includeDead: bool, gets: seq<string>,
                          result: map<string, Json>, dead: map<int, seq<string>>, uri: string)
    requires LeftBehind(mode, server, includeDead, gets, result, dead)
    ensures LeftBehind(mode, server, includeDead, if Skipped(mode, uri) then gets else gets + [uri],
                       result + Writes(mode, server, uri),
                       if includeDead && Dead(mode, server, uri) then AddDead(dead, server(uri).status, uri) else dead)
  {
    AfterOneMore(mode, server, gets, uri);
    assert result + map[] == result;
  }

  /** An enumeration as the source performs it: an object with a pending set and a result that grow in place. */
  class Enumerator {
    const mode: Mode
    const server: Server
    var pending: set<string>
    var result: map<string, Json>
    var dead: map<int, seq<string>>
    var gets: seq<string>              // the GET requests issued, in order

    constructor (mode: Mode, server: Server)
      ensures this.mode == mode && this.server == server
    {
      this.mode := mode;
      this.server := server;
      pending, result, gets, dead := {}, map[], [], map[];
    }

    /** `walk_nested_dict`.  Returns false where the source raises an exception. */
    method WalkNestedDict(data: Json, url: string) returns (ok: bool)
      requires data.Dict?
      modifies this`pending, this`result
      ensures ok <==> Walk(mode, data, data.entries, StripSlashes(url)).Some?
      ensures ok ==> pending == old(pending) + Walk(mode, data, data.entries, StripSlashes(url)).value.links
      ensures ok ==> result == old(result) + Walk(mode, data, data.entries, StripSlashes(url)).value.writes
      decreases data, 1
    {
      var stripped := StripSlashes(url);
      ghost var found := Found({}, map[]);
      var i := 0;
      while i < |data.entries|
        invariant 0 <= i <= |data.entries|
        invariant Walk(mode, data, data.entries[..i], stripped) == Some(found)
        invariant pending == old(pending) + found.links
        invariant result == old(result) + found.writes
      {
        WalkStep(mode, data, data.entries, i, stripped);
        ok := WalkItem(data, data.entries[i], stripped);
        if !ok {
          WalkPrefix(mode, data, data.entries, i + 1, stripped);
          return;
        }
        ghost var here := WalkEntry(mode, data, data.entries[i], stripped).value;
        MergeAssociates(old(result), found.writes, here.writes);
        found := Found(found.links + here.links, found.writes + here.writes);
        i := i + 1;
      }
      assert data.entries[..i] == data.entries;
      ok := true;
    }

    /** The body of the loop of `walk_nested_dict`. */
    method WalkItem(data: Json, entry: Entry, url: string) returns (ok: bool)
      requires data.Dict? && entry in data.entries
      modifies this`pending, this`result
      ensures ok <==> WalkEntry(mode, data, entry, url).Some?
      ensures ok ==> pending == old(pending) + WalkEntry(mode, data, entry, url).value.links
      ensures ok ==> result == old(result) + WalkEntry(mode, data, entry, url).value.writes
      decreases data, 0
    {
      ok := true;
      if entry.value.Dict? {
        assert StripSlashes("") == "";
        ok := WalkNestedDict(entry.value, "");
      } else {
        if entry.key == "Members" && entry.value.List? {
          ok := AddMembers(entry.value.items);
        }
        if entry.key == ODATA_ID {
          if !entry.value.Text? {
            return false;
          }
          var value := StripSlashes(entry.value.text);
          if value == url {
            result := result[url := data];
          } else {
            pending := pending + {value};
          }
        }
      }
    }

    method AddMembers(members: seq<Json>) returns (ok: bool)
      modifies this`pending
      ensures ok <==> MemberUris(mode, members).Some?
      ensures ok ==> pending == old(pending) + MemberUris(mode, members).value
    {
      var i := 0;
      while i < |members|
        invariant 0 <= i <= |members|
        invariant MemberUris(mode, members[..i]).Some?
        invariant pending == old(pending) + MemberUris(mode, members[..i]).value
      {
        assert members[..i + 1][..i] == members[..i];
        var uri := MemberUri(mode, members[i]);
        if uri.None? {
          MembersPrefix(mode, members, i + 1);
          return false;
        }
        pending := pending + {uri.value};
        i := i + 1;
      }
      assert members[..i] == members;
      ok := true;
    }

    /** The body of the loop over one round: skip, GET, record a dead resource, or walk. */
    method VisitResource(uri: string, includeDead: bool) returns (ok: bool)
      modifies this
      ensures ok <==> !Fatal(mode, server, uri)
      ensures ok ==> pending == old(pending) + Links(mode, server, uri)
      ensures ok ==> gets == if LeftOut(mode, uri) then old(gets) else old(gets) + [uri]
      ensures ok ==> result == old(result) + Writes(mode, server, uri)
      ensures ok ==> dead == if includeDead && Dead(mode, server, uri)
                             then AddDead(old(dead), server(uri).status, uri) else old(dead)
    {
      SkippedExactly(mode, uri);
      if Skipped(mode, uri) {
        return true;
      }
      gets := gets + [uri];
      var response := server(uri);
      if !ValidStatus(mode, response.status) {
        return false;
      }
      if response.status != 200 {
        if includeDead {
          if response.status in dead {
            dead := dead[response.status := dead[response.status] + [uri]];
          } else {
            dead := dead[response.status := [uri]];
            assert [] + [uri] == [uri];
          }
        }
        return true;
      }
      if !response.body.Dict? {
        return false;
      }
      ok := WalkNestedDict(response.body, uri);
    }

    /** The URIs visited so far are `done`, and this is what visiting them left behind. */
    ghost predicate Visited(done: set<string>, includeDead: bool)
      reads this
    {
      && NoneFatal(mode, server, done, pending)
      && VisitLog(mode, done, gets)
      && LeftBehind(mode, server, includeDead, gets, result, dead)
    }

    /** One more visit; `done` is what was visited before. */
    method VisitNext(uri: string, includeDead: bool, ghost done: set<string>) returns (ok: bool)
      requires Visited(done, includeDead) && uri !in done
      modifies this
      ensures ok <==> !Fatal(mode, server, uri)
      ensures ok ==> Visited(done + {uri}, includeDead)
      ensures ok ==> pending == old(pending) + Links(mode, server, uri)
      ensures ok ==> gets == if Skipped(mode, uri) then old(gets) else old(gets) + [uri]
    {
      SkippedExactly(mode, uri);
      ghost var before, results, deads, todo := gets, result, dead, pending;
      ok := VisitResource(uri, includeDead);
      if ok {
        NoneFatalOneMore(mode, server, done, todo, uri);
        LogOneMore(mode, done, before, uri);
        LeftBehindOneMore(mode, server, includeDead, before, results, deads, uri);
      }
    }

    /** One round: the URIs are visited in an arbitrary order, as iterating over a set does. */
    method VisitRound(round: set<string>, includeDead: bool, ghost done: set<string>) returns (ok: bool)
      requires Visited(done, includeDead) && round !! done
      modifies this
      ensures ok <==> forall u :: u in round ==> !Fatal(mode, server, u)
      ensures ok ==> Visited(done + round, includeDead)
      ensures ok ==> old(pending) <= pending
      ensures ok ==> FoundInRound(mode, server, old(pending), round, pending)
      ensures ok ==> old(gets) <= gets && forall i :: |old(gets)| <= i < |gets| ==> gets[i] in round
    {
      var rest := round;
      ghost var visited := done;
      while rest != {}
        invariant rest <= round && visited == done + (round - rest)
        invariant Visited(visited, includeDead)
        invariant old(pending) <= pending
        invariant FoundInRound(mode, server, old(pending), round, pending)
        invariant old(gets) <= gets && forall i :: |old(gets)| <= i < |gets| ==> gets[i] in round
        decreases rest
      {
        var uri :| uri in rest;
        ok := VisitNext(uri, includeDead, visited);
        if !ok {
          return;
        }
        rest, visited := rest - {uri}, visited + {uri};
      }
      assert visited == done + round;
      ok := true;
    }

    /** n rounds have been visited, one after the other, and what they found is pending. */
    ghost predicate AfterRounds(start: string, includeDead: bool, n: nat)
      reads this
    {
      && pending == Within(LinkGraph(mode, server), start, n + 1)
      && Visited(Within(LinkGraph(mode, server), start, n), includeDead)
      && RoundByRound(LinkGraph(mode, server), start, gets)
    }

    method NextRound(round: set<string>, includeDead: bool, ghost start: string, ghost n: nat) returns (ok: bool)
      requires AfterRounds(start, includeDead, n) && round == pending - Within(LinkGraph(mode, server), start, n)
      modifies this
      ensures ok <==> forall u :: u in round ==> !Fatal(mode, server, u)
      ensures ok ==> AfterRounds(start, includeDead, n + 1)
      ensures Within(LinkGraph(mode, server), start, n) + round == old(pending)
    {
      ghost var before, earlier := pending, gets;
      WithinGrows(LinkGraph(mode, server), start, n);
      assert Within(LinkGraph(mode, server), start, n) + round == before;
      ok := VisitRound(round, includeDead, Within(LinkGraph(mode, server), start, n));
      if ok {
        FoundIsNextRound(mode, server, start, n, before, round, pending);
        RoundAfterRound(LinkGraph(mode, server), start, n, earlier, gets);
      }
    }

    /** Nothing has been visited, and the start is pending. */
    method Begin(start: string, ghost includeDead: bool)
      modifies this
      ensures pending == {start} && AfterRounds(start, includeDead, 0)
    {
      result, pending, gets, dead := map[], {start}, [], map[];
      FirstRound(LinkGraph(mode, server), start);
    }

    /** The whole enumeration.  Returns false where the source raises an exception. */
    method Run(start: string, includeDead: bool, ghost universe: set<string>) returns (ok: bool)
      requires start in universe && Closed(mode, server, universe)
      modifies this
      ensures ok <==> forall u :: u in Reached(mode, server, start, universe) ==> !Fatal(mode, server, u)
      ensures ok ==> InSomeOrder(mode, server, start, Reached(mode, server, start, universe), gets)
      ensures ok ==> forall u :: u in gets <==>
                       u in Reached(mode, server, start, universe) && !LeftOut(mode, u)
      ensures ok ==> LeftBehind(mode, server, includeDead, gets, result, dead)
    {
      Begin(start, includeDead);
      var enumerated: set<string> := {};
      var round := {start};
      ghost var reached := Reached(mode, server, start, universe);
      ghost var n: nat := 0;
      while round != {}
        invariant enumerated == Within(LinkGraph(mode, server), start, n) && round == pending - enumerated
        invariant AfterRounds(start, includeDead, n)
        decreases reached - enumerated
      {
        WithinReached(mode, server, start, n + 1, universe);
        assert round <= reached;
        ok := NextRound(round, includeDead, start, n);
        if !ok {
          return;
        }
        enumerated := enumerated + round;
        round := pending - enumerated;
        n := n + 1;
      }
      Exhausted(start, includeDead, n, universe);
      ok := true;
    }

    /** When a round finds nothing new, all that is reached has been visited. */
    lemma Exhausted(start: string, includeDead: bool, n: nat, universe: set<string>)
      requires start in universe && Closed(mode, server, universe)
      requires AfterRounds(start, includeDead, n) && pending - Within(LinkGraph(mode, server), start, n) == {}
      ensures var reached := Reached(mode, server, start, universe);
              && (forall u :: u in reached ==> !Fatal(mode, server, u))
              && InSomeOrder(mode, server, start, reached, gets)
              && forall u :: u in gets <==> u in reached && !LeftOut(mode, u)
      ensures LeftBehind(mode, server, includeDead, gets, result, dead)
    {
      ExhaustedIsReached(mode, server, start, n, universe);
      forall u
        ensures Skipped(mode, u) <==> LeftOut(mode, u)
      {
        SkippedExactly(mode, u);
      }
    }
  }

  lemma MergeAssociates(a: map<string, Json>, b: map<string, Json>, c: map<string, Json>)
    ensures (a + b) + c == a + (b + c)
  {
  }

  lemma WalkStep(mode: Mode, data: Json, entries: seq<Entry>, i: nat, url: string)
    requires i < |entries|
    ensures Walk(mode, data, entries[..i + 1], url)
            == Combine(Walk(mode, data, entries[..i], url), WalkEntry(mode, data, entries[i], url))
  {
    assert entries[..i + 1][..i] == entries[..i];
  }

  lemma {:induction false} WalkPrefix(mode: Mode, data: Json, entries: seq<Entry>, n: nat, url: string)
    requires n <= |entries| && Walk(mode, data, entries[..n], url).None?
    ensures Walk(mode, data, entries, url).None?
    decreases |entries|
  {
    if n < |entries| {
      assert entries[..|entries| - 1][..n] == entries[..n];
      WalkPrefix(mode, data, entries[..|entries| - 1], n, url);
    } else {
      assert entries[..n] == entries;
    }
  }

  lemma {:induction false} MembersPrefix(mode: Mode, members: seq<Json>, n: nat)
    requires n <= |members| && MemberUris(mode, members[..n]).None?
    ensures MemberUris(mode, members).None?
    decreases |members|
  {
    if n < |members| {
      assert members[..|members| - 1][..n] == members[..n];
      MembersPrefix(mode, members[..|members| - 1], n);
    } else {
      assert members[..n] == members;
    }
  }

  // ----- Which results are possible -----

  /** The result has an entry for every key that a visited URI writes, and each entry is one of those writes. */
  ghost predicate ResultOf(mode: Mode, server: Server, visits: seq<string>, result: map<string, Json>) {
    && (forall u, k :: u in visits && k in Writes(mode, server, u) ==> k in result)
    && (forall k :: k in result ==> WrittenBy(mode, server, visits, k, result[k]))
  }

  ghost predicate WrittenBy(mode: Mode, server: Server, visits: seq<string>, key: string, data: Json) {
    exists u :: u in visits && key in Writes(mode, server, u) && Writes(mode, server, u)[key] == data
  }

  lemma {:induction false} ResultAfterIsWritten(mode: Mode, server: Server, visits: seq<string>)
    ensures ResultOf(mode, server, visits, ResultAfter(mode, server, visits))
    decreases |visits|
  {
    if visits != [] {
      var n := |visits| - 1;
      var before := ResultAfter(mode, server, visits[..n]);
      var last := Writes(mode, server, visits[n]);
      ResultAfterIsWritten(mode, server, visits[..n]);
      assert forall u :: u in visits <==> u in visits[..n] || u == visits[n];
      forall k | k in before + last
        ensures WrittenBy(mode, server, visits, k, (before + last)[k])
      {
        if k !in last {
          assert WrittenBy(mode, server, visits[..n], k, before[k]);
        }
      }
    }
  }

  /** No two visited URIs write different data under one key. */
  ghost predicate Compatible(mode: Mode, server: Server, visits: seq<string>) {
    forall u, v, k :: u in visits && v in visits && k in Writes(mode, server, u) && k in Writes(mode, server, v)
                      ==> Writes(mode, server, u)[k] == Writes(mode, server, v)[k]
  }

  lemma ResultIsContained(mode: Mode, server: Server, visits: seq<string>, a: map<string, Json>, b: map<string, Json>,
                          k: string)
    requires Compatible(mode, server, visits)
    requires ResultOf(mode, server, visits, a) && ResultOf(mode, server, visits, b) && k in a
    ensures k in b && a[k] == b[k]
  {
    assert WrittenBy(mode, server, visits, k, a[k]);
    var u :| u in visits && k in Writes(mode, server, u) && Writes(mode, server, u)[k] == a[k];
    assert WrittenBy(mode, server, visits, k, b[k]);
  }

  lemma ResultIsUnique(mode: Mode, server: Server, visits: seq<string>, a: map<string, Json>, b: map<string, Json>)
    requires Compatible(mode, server, visits)
    requires ResultOf(mode, server, visits, a) && ResultOf(mode, server, visits, b)
    ensures a == b
  {
    forall k | k in a
      ensures k in b && a[k] == b[k]
    {
      ResultIsContained(mode, server, visits, a, b, k);
    }
    forall k | k in b
      ensures k in a
    {
      ResultIsContained(mode, server, visits, b, a, k);
    }
  }

  predicate DeadWith(mode: Mode, server: Server, uri: string, status: int) {
    Dead(mode, server, uri) && server(uri).status == status
  }

  /** The dead resources recorded under a status. */
  function DeadList(dead: map<int, seq<string>>, status: int): seq<string> {
    if status in dead then dead[status] else []
  }

  /** The list of dead resources of a status holds exactly the dead URIs with that status, each once, and a status
      without any has no list. */
  lemma {:induction false} DeadAfterIsExact(mode: Mode, server: Server, visits: seq<string>, status: int)
    requires Distinct(visits)
    ensures var dead := DeadAfter(mode, server, visits);
            && (status in dead <==> DeadList(dead, status) != [])
            && Distinct(DeadList(dead, status))
            && forall u :: u in DeadList(dead, status) <==> u in visits && DeadWith(mode, server, u, status)
    decreases |visits|
  {
    if visits != [] {
      var n := |visits| - 1;
      var before, dead := DeadAfter(mode, server, visits[..n]), DeadAfter(mode, server, visits);
      DeadAfterIsExact(mode, server, visits[..n], status);
      assert forall u :: u in visits <==> u in visits[..n] || u == visits[n];
      assert visits[n] !in visits[..n];
      if DeadWith(mode, server, visits[n], status) {
        assert DeadList(dead, status) == DeadList(before, status) + [visits[n]];
      } else {
        assert DeadList(dead, status) == DeadList(before, status);
      }
    }
  }

  /** The visited resources that are dead with a status, in the order of the visits. */
  function DeadInOrder(mode: Mode, server: Server, visits: seq<string>, status: int): seq<string>
    decreases |visits|
  {
    if visits == [] then []
    else
      (if DeadWith(mode, server, visits[0], status) then [visits[0]] else [])
      + DeadInOrder(mode, server, visits[1..], status)
  }

  lemma {:induction false} DeadOneMore(mode: Mode, server: Server, visits: seq<string>, uri: string, status: int)
    ensures DeadInOrder(mode, server, visits + [uri], status)
            == DeadInOrder(mode, server, visits, status)
               + if DeadWith(mode, server, uri, status) then [uri] else []
    decreases |visits|
  {
    if visits == [] {
      assert visits + [uri] == [uri] && [uri][1..] == [];
    } else {
      assert (visits + [uri])[1..] == visits[1..] + [uri];
      DeadOneMore(mode, server, visits[1..], uri, status);
    }
  }

  /** The list of a status keeps the order of the visits. */
  lemma {:induction false} DeadListIsInOrder(mode: Mode, server: Server, visits: seq<string>, status: int)
    ensures DeadList(DeadAfter(mode, server, visits), status) == DeadInOrder(mode, server, visits, status)
    decreases |visits|
  {
    if visits != [] {
      var init, last := visits[..|visits| - 1], visits[|visits| - 1];
      DeadListIsInOrder(mode, server, init, status);
      DeadOneMore(mode, server, init, last, status);
      assert init + [last] == visits;
    }
  }

  lemma {:induction false} CountIfDistinct(uris: seq<string>, u: string)
    requires Distinct(uris)
    ensures multiset(uris)[u] == if u in uris then 1 else 0
    decreases |uris|
  {
    if uris != [] {
      var n := |uris| - 1;
      assert uris == uris[..n] + [uris[n]];
      CountIfDistinct(uris[..n], u);
    }
  }

  lemma SameElementsSameMultiset(a: seq<string>, b: seq<string>)
    requires Distinct(a) && Distinct(b) && forall u :: u in a <==> u in b
    ensures multiset(a) == multiset(b)
  {
    forall u
      ensures multiset(a)[u] == multiset(b)[u]
    {
      CountIfDistinct(a, u);
      CountIfDistinct(b, u);
    }
  }

  lemma OrderIndependentResult(mode: Mode, server: Server, a: seq<string>, b: seq<string>)
    requires forall u :: u in a <==> u in b
    requires Compatible(mode, server, a)
    ensures ResultAfter(mode, server, a) == ResultAfter(mode, server, b)
  {
    ResultAfterIsWritten(mode, server, a);
    ResultAfterIsWritten(mode, server, b);
    var r := ResultAfter(mode, server, b);
    forall k | k in r
      ensures WrittenBy(mode, server, a, k, r[k])
    {
      assert WrittenBy(mode, server, b, k, r[k]);
    }
    ResultIsUnique(mode, server, a, ResultAfter(mode, server, a), r);
  }

  lemma OrderIndependentDead(mode: Mode, server: Server, a: seq<string>, b: seq<string>, status: int)
    requires Distinct(a) && Distinct(b) && forall u :: u in a <==> u in b
    ensures var deadA, deadB := DeadAfter(mode, server, a), DeadAfter(mode, server, b);
            && (status in deadA <==> status in deadB)
            && multiset(DeadList(deadA, status)) == multiset(DeadList(deadB, status))
  {
    var listA, listB := DeadList(DeadAfter(mode, server, a), status), DeadList(DeadAfter(mode, server, b), status);
    DeadAfterIsExact(mode, server, a, status);
    DeadAfterIsExact(mode, server, b, status);
    SameElementsSameMultiset(listA, listB);
    assert |multiset(listA)| == |listA| && |multiset(listB)| == |listB|;
  }

  /** If no writes conflict, the order of the visits does not matter at all: the result map and every list of dead
      resources, taken as a multiset, are the same. */
  lemma OrderIndependent(mode: Mode, server: Server, a: seq<string>, b: seq<string>)
    requires Distinct(a) && Distinct(b) && forall u :: u in a <==> u in b
    requires Compatible(mode, server, a)
    ensures ResultAfter(mode, server, a) == ResultAfter(mode, server, b)
    ensures var deadA, deadB := DeadAfter(mode, server, a), DeadAfter(mode, server, b);
            forall st ::
              (st in deadA <==> st in deadB) && multiset(DeadList(deadA, st)) == multiset(DeadList(deadB, st))
  {
    OrderIndependentResult(mode, server, a, b);
    forall st
      ensures var deadA, deadB := DeadAfter(mode, server, a), DeadAfter(mode, server, b);
              (st in deadA <==> st in deadB) && multiset(DeadList(deadA, st)) == multiset(DeadList(deadB, st))
    {
      OrderIndependentDead(mode, server, a, b, st);
    }
  }

  // ----- Exactly when the order within the rounds does not matter -----

  /** The URI writes the key, and no URI of a later round does. */
  ghost predicate LastWriter(mode: Mode, server: Server, start: string, reached: set<string>, key: string,
                             uri: string)
  {
    && uri in reached && key in Writes(mode, server, uri)
    && forall v, n: nat ::
         v in reached && key in Writes(mode, server, v) && uri in Within(LinkGraph(mode, server), start, n)
         ==> v in Within(LinkGraph(mode, server), start, n)
  }

  /** For every key, the URIs of the last round that writes it write the same data. */
  ghost predicate LastWritersAgree(mode: Mode, server: Server, start: string, reached: set<string>) {
    forall u, v, k :: LastWriter(mode, server, start, reached, k, u) && LastWriter(mode, server, start, reached, k, v)
                      ==> Writes(mode, server, u)[k] == Writes(mode, server, v)[k]
  }

  /** The result holds what the last visit that writes the key wrote. */
  lemma {:induction false} LastVisitWins(mode: Mode, server: Server, visits: seq<string>, key: string) returns (i: nat)
    requires key in ResultAfter(mode, server, visits)
    ensures i < |visits| && key in Writes(mode, server, visits[i])
    ensures ResultAfter(mode, server, visits)[key] == Writes(mode, server, visits[i])[key]
    ensures forall j :: i < j < |visits| ==> key !in Writes(mode, server, visits[j])
    decreases |visits|
  {
    var n := |visits| - 1;
    if key in Writes(mode, server, visits[n]) {
      i := n;
    } else {
      i := LastVisitWins(mode, server, visits[..n], key);
    }
  }

  lemma WriterIsVisited(mode: Mode, server: Server, reached: set<string>, gets: seq<string>, uri: string, key: string)
    returns (i: nat)
    requires VisitLog(mode, reached, gets) && uri in reached && key in Writes(mode, server, uri)
    ensures i < |gets| && gets[i] == uri && key in ResultAfter(mode, server, gets)
  {
    assert uri in gets;
    i :| i < |gets| && gets[i] == uri;
    ResultAfterIsWritten(mode, server, gets);
  }

  /** In any order of the rounds, what is kept for a key comes from the last round that writes it. */
  lemma LastVisitIsLastWriter(mode: Mode, server: Server, start: string, reached: set<string>, gets: seq<string>,
                              key: string)
    returns (i: nat)
    requires InSomeOrder(mode, server, start, reached, gets) && key in ResultAfter(mode, server, gets)
    ensures i < |gets| && LastWriter(mode, server, start, reached, key, gets[i])
    ensures ResultAfter(mode, server, gets)[key] == Writes(mode, server, gets[i])[key]
    ensures forall j :: i < j < |gets| ==> key !in Writes(mode, server, gets[j])
  {
    i := LastVisitWins(mode, server, gets, key);
    var graph := LinkGraph(mode, server);
    forall v, n: nat | v in reached && key in Writes(mode, server, v) && gets[i] in Within(graph, start, n)
      ensures v in Within(graph, start, n)
    {
      var j := WriterIsVisited(mode, server, reached, gets, v, key);
    }
  }

  lemma AgreementFixesKey(mode: Mode, server: Server, start: string, reached: set<string>, a: seq<string>,
                          b: seq<string>, key: string)
    requires LastWritersAgree(mode, server, start, reached)
    requires InSomeOrder(mode, server, start, reached, a) && InSomeOrder(mode, server, start, reached, b)
    requires key in ResultAfter(mode, server, a)
    ensures key in ResultAfter(mode, server, b)
            && ResultAfter(mode, server, a)[key] == ResultAfter(mode, server, b)[key]
  {
    var i := LastVisitIsLastWriter(mode, server, start, reached, a, key);
    var p := WriterIsVisited(mode, server, reached, b, a[i], key);
    var j := LastVisitIsLastWriter(mode, server, start, reached, b, key);
  }

  lemma {:induction false} ListSet(uris: set<string>) returns (list: seq<string>)
    ensures Distinct(list) && forall u :: u in list <==> u in uris
    decreases uris
  {
    if uris == {} {
      list := [];
    } else {
      var u :| u in uris;
      list := ListSet(uris - {u});
      list := list + [u];
    }
  }

  /** A round can be visited in an order that leaves a given URI to the end. */
  lemma ListRound(mode: Mode, round: set<string>, last: string) returns (list: seq<string>)
    ensures VisitLog(mode, round, list)
    ensures last in list ==> list[|list| - 1] == last
  {
    list := ListSet(set u | u in round - {last} && !Skipped(mode, u));
    if last in round {
      LogOneMore(mode, round - {last}, list, last);
      assert round - {last} + {last} == round;
      list := if Skipped(mode, last) then list else list + [last];
    } else {
      assert round - {last} == round;
    }
  }

  /** Whatever is visited after the URI belongs to a later round. */
  ghost predicate EndsItsRound(graph: Graph, start: string, gets: seq<string>, last: string) {
    forall i, j :: 0 <= i < j < |gets| && gets[i] == last ==> LaterRound(graph, start, last, gets[j])
  }

  ghost predicate LaterRound(graph: Graph, start: string, earlier: string, later: string) {
    exists n: nat :: earlier in Within(graph, start, n) && later !in Within(graph, start, n)
  }

  lemma LogsJoin(mode: Mode, done: set<string>, before: seq<string>, round: set<string>, list: seq<string>)
    requires VisitLog(mode, done, before) && VisitLog(mode, round, list) && done !! round
    ensures VisitLog(mode, done + round, before + list)
  {
    var gets := before + list;
    forall i, j | 0 <= i < j < |gets|
      ensures gets[i] != gets[j]
    {
      if i < |before| <= j {
        assert gets[i] in before && gets[j] in list;
      }
    }
  }

  lemma EndsItsRoundJoins(mode: Mode, graph: Graph, start: string, n: nat, before: seq<string>, list: seq<string>,
                          last: string)
    requires EndsItsRound(graph, start, before, last) && VisitLog(mode, Within(graph, start, n), before)
    requires VisitLog(mode, Within(graph, start, n + 1) - Within(graph, start, n), list)
    requires last in list ==> list[|list| - 1] == last
    ensures EndsItsRound(graph, start, before + list, last)
  {
    var gets := before + list;
    assert forall k :: 0 <= k < |list| - 1 ==> list[k] != last;
    forall i, j | 0 <= i < j < |gets| && gets[i] == last
      ensures LaterRound(graph, start, last, gets[j])
    {
      if i < |before| <= j {
        assert last in before && gets[j] in list;
      }
    }
  }

  lemma RoundsJoin(mode: Mode, graph: Graph, start: string, n: nat, before: seq<string>, list: seq<string>)
    requires VisitLog(mode, Within(graph, start, n), before) && RoundByRound(graph, start, before)
    requires VisitLog(mode, Within(graph, start, n + 1) - Within(graph, start, n), list)
    ensures VisitLog(mode, Within(graph, start, n + 1), before + list) && RoundByRound(graph, start, before + list)
  {
    var done, next := Within(graph, start, n), Within(graph, start, n + 1);
    LogsJoin(mode, done, before, next - done, list);
    WithinGrows(graph, start, n);
    assert done + (next - done) == next;
    forall i | |before| <= i < |before + list|
      ensures (before + list)[i] in next - done
    {
      assert (before + list)[i] in list;
    }
    RoundAfterRound(graph, start, n, before, before + list);
  }

  lemma {:induction false} ListRounds(mode: Mode, graph: Graph, start: string, n: nat, last: string)
    returns (gets: seq<string>)
    ensures VisitLog(mode, Within(graph, start, n), gets) && RoundByRound(graph, start, gets)
    ensures EndsItsRound(graph, start, gets, last)
  {
    gets := [];
    if n > 0 {
      var before := ListRounds(mode, graph, start, n - 1, last);
      var list := ListRound(mode, Within(graph, start, n) - Within(graph, start, n - 1), last);
      RoundsJoin(mode, graph, start, n - 1, before, list);
      EndsItsRoundJoins(mode, graph, start, n - 1, before, list, last);
      gets := before + list;
    }
  }

  lemma {:induction false} RoundsSuffice(mode: Mode, server: Server, start: string, uris: set<string>) returns (n: nat)
    requires forall u :: u in uris ==> Reachable(mode, server, start, u)
    ensures uris <= Within(LinkGraph(mode, server), start, n)
    decreases uris
  {
    n := 0;
    if uris != {} {
      var u :| u in uris;
      var m := RoundsSuffice(mode, server, start, uris - {u});
      var path :| Path(mode, server, start, path, u);
      PathIsWithin(mode, server, start, path, u);
      n := if m < |path| + 1 then |path| + 1 else m;
      WithinIsMonotone(LinkGraph(mode, server), start, m, n);
      WithinIsMonotone(LinkGraph(mode, server), start, |path| + 1, n);
    }
  }

  /** There is an order of the rounds in which a given URI is visited at the end of its round. */
  lemma OrderEndingIn(mode: Mode, server: Server, start: string, reached: set<string>, last: string)
    returns (gets: seq<string>)
    requires ReachedSet(mode, server, start, reached)
    ensures InSomeOrder(mode, server, start, reached, gets)
    ensures EndsItsRound(LinkGraph(mode, server), start, gets, last)
  {
    var n := RoundsSuffice(mode, server, start, reached);
    var visited := Within(LinkGraph(mode, server), start, n);
    forall u | u in visited
      ensures u in reached
    {
      WithinIsReached(mode, server, start, n, u);
    }
    assert visited == reached;
    gets := ListRounds(mode, LinkGraph(mode, server), start, n, last);
  }

  lemma NoLaterWriter(mode: Mode, server: Server, start: string, reached: set<string>, key: string, uri: string,
                      other: string)
    requires LastWriter(mode, server, start, reached, key, uri) && other in reached
             && key in Writes(mode, server, other)
    ensures !LaterRound(LinkGraph(mode, server), start, uri, other)
  {
  }

  /** Its data is then what is kept for every key whose last writer it is. */
  lemma LastOfLastRoundWins(mode: Mode, server: Server, start: string, reached: set<string>, gets: seq<string>,
                            uri: string, key: string)
    requires InSomeOrder(mode, server, start, reached, gets) && EndsItsRound(LinkGraph(mode, server), start, gets, uri)
    requires LastWriter(mode, server, start, reached, key, uri)
    ensures key in ResultAfter(mode, server, gets)
            && ResultAfter(mode, server, gets)[key] == Writes(mode, server, uri)[key]
  {
    var p := WriterIsVisited(mode, server, reached, gets, uri, key);
    var i := LastVisitWins(mode, server, gets, key);
    VisitedIsReached(mode, reached, gets, i);
    NoLaterWriter(mode, server, start, reached, key, uri, gets[i]);
    if p < i {
      LaterVisit(LinkGraph(mode, server), start, gets, uri, p, i);
      assert false;
    }
  }

  lemma LaterVisit(graph: Graph, start: string, gets: seq<string>, uri: string, p: nat, i: nat)
    requires EndsItsRound(graph, start, gets, uri) && p < i < |gets| && gets[p] == uri
    ensures LaterRound(graph, start, uri, gets[i])
  {
  }

  lemma VisitedIsReached(mode: Mode, reached: set<string>, gets: seq<string>, i: nat)
    requires VisitLog(mode, reached, gets) && i < |gets|
    ensures gets[i] in reached
  {
    assert gets[i] in gets;
  }

  /** All orders of the rounds leave the same result. */
  ghost predicate OneResult(mode: Mode, server: Server, start: string, reached: set<string>) {
    forall a, b :: InSomeOrder(mode, server, start, reached, a) && InSomeOrder(mode, server, start, reached, b)
                   ==> ResultAfter(mode, server, a) == ResultAfter(mode, server, b)
  }

  /** Exactly when the order in which the rounds visit their URIs does not matter for the result: for every key, the
      URIs of the last round that writes it agree. */
  lemma OrderIndependentExactly(mode: Mode, server: Server, start: string, reached: set<string>)
    requires ReachedSet(mode, server, start, reached)
    ensures OneResult(mode, server, start, reached) <==> LastWritersAgree(mode, server, start, reached)
  {
    if LastWritersAgree(mode, server, start, reached) {
      forall a, b | InSomeOrder(mode, server, start, reached, a) && InSomeOrder(mode, server, start, reached, b)
        ensures ResultAfter(mode, server, a) == ResultAfter(mode, server, b)
      {
        var resultA, resultB := ResultAfter(mode, server, a), ResultAfter(mode, server, b);
        forall k | k in resultA || k in resultB
          ensures k in resultA && k in resultB && resultA[k] == resultB[k]
        {
          if k in resultA {
            AgreementFixesKey(mode, server, start, reached, a, b, k);
          } else {
            AgreementFixesKey(mode, server, start, reached, b, a, k);
          }
        }
      }
    }
    if OneResult(mode, server, start, reached) {
      forall u, v, k | LastWriter(mode, server, start, reached, k, u) && LastWriter(mode, server, start, reached, k, v)
        ensures Writes(mode, server, u)[k] == Writes(mode, server, v)[k]
      {
        var a := OrderEndingIn(mode, server, start, reached, u);
        var b := OrderEndingIn(mode, server, start, reached, v);
        LastOfLastRoundWins(mode, server, start, reached, a, u, k);
        LastOfLastRoundWins(mode, server, start, reached, b, v, k);
      }
    }
  }

  /** If no two visited URIs write different data under one key, then those of the last round do not either. */
  lemma CompatibleAgree(mode: Mode, server: Server, start: string, reached: set<string>, gets: seq<string>)
    requires VisitLog(mode, reached, gets) && Compatible(mode, server, gets)
    ensures LastWritersAgree(mode, server, start, reached)
  {
    forall u, v, k | LastWriter(mode, server, start, reached, k, u) && LastWriter(mode, server, start, reached, k, v)
      ensures Writes(mode, server, u)[k] == Writes(mode, server, v)[k]
    {
      assert u in gets && v in gets;
    }
  }

  /** Accounting: a reached URI is skipped, or walked, or listed under its status and no other: exactly one of the
      three. */
  lemma EveryReachedUriIsAccountedFor(mode: Mode, server: Server, reached: set<string>, gets: seq<string>, uri: string)
    requires VisitLog(mode, reached, gets) && uri in reached && !Fatal(mode, server, uri)
    ensures var dead := DeadAfter(mode, server, gets);
            var listed := uri in DeadList(dead, server(uri).status);
            && (listed <==> !Skipped(mode, uri) && !Live(mode, server, uri))
            && (Live(mode, server, uri) ==> !Skipped(mode, uri))
            && forall st :: uri in DeadList(dead, st) ==> st == server(uri).status
  {
    forall st
      ensures uri in DeadList(DeadAfter(mode, server, gets), st) <==> uri in gets && DeadWith(mode, server, uri, st)
    {
      DeadAfterIsExact(mode, server, gets, st);
    }
  }

  // ----- When results cannot conflict -----

  /** No dictionary nested in the value has an "@odata.id" that strips to the empty string. */
  predicate NoBlankId(value: Json) {
    value.Dict? ==>
      forall i :: 0 <= i < |value.entries| ==>
        && !BlankId(value.entries[i])
        && NoBlankId(value.entries[i].value)
  }

  predicate BlankId(entry: Entry) {
    entry.key == "@odata.id" && entry.value.Text? && StripSlashes(entry.value.text) == ""
  }

  predicate NestedIdsNonblank(body: Json) {
    body.Dict? ==> forall i :: 0 <= i < |body.entries| ==> NoBlankId(body.entries[i].value)
  }

  predicate NamesUrl(entry: Entry, url: string) {
    entry.key == "@odata.id" && entry.value.Text? && StripSlashes(entry.value.text) == url
  }

  predicate SomeNamesUrl(entries: seq<Entry>, url: string)
    decreases |entries|
  {
    entries != [] && (NamesUrl(entries[|entries| - 1], url) || SomeNamesUrl(entries[..|entries| - 1], url))
  }

  /** The body names the URI itself as its "@odata.id", up to trailing slashes. */
  predicate OwnId(body: Json, uri: string) {
    body.Dict? && SomeNamesUrl(body.entries, StripSlashes(uri))
  }

  /** A walk of a nested dictionary writes nothing. */
  lemma {:induction false} NestedWalkWritesNothing(mode: Mode, data: Json, entries: seq<Entry>)
    requires forall i :: 0 <= i < |entries| ==> !BlankId(entries[i]) && NoBlankId(entries[i].value)
    ensures Walk(mode, data, entries, "").Some? ==> Walk(mode, data, entries, "").value.writes == map[]
    decreases entries
  {
    if entries != [] {
      var last := entries[|entries| - 1];
      NestedWalkWritesNothing(mode, data, entries[..|entries| - 1]);
      if last.value.Dict? {
        NestedWalkWritesNothing(mode, last.value, last.value.entries);
      }
    }
  }

  lemma EntryWritesOwnData(mode: Mode, data: Json, entry: Entry, url: string)
    requires NoBlankId(entry.value) && WalkEntry(mode, data, entry, url).Some?
    ensures WalkEntry(mode, data, entry, url).value.writes == if NamesUrl(entry, url) then map[url := data] else map[]
  {
    if entry.value.Dict? {
      NestedWalkWritesNothing(mode, entry.value, entry.value.entries);
    }
  }

  /** A walk writes at most the walked data itself, under the URI's own stripped name, and only if the data
      carries that name as its "@odata.id". */
  lemma {:induction false} WalkWritesOwnEntry(mode: Mode, data: Json, entries: seq<Entry>, url: string)
    requires forall i :: 0 <= i < |entries| ==> NoBlankId(entries[i].value)
    requires Walk(mode, data, entries, url).Some?
    ensures Walk(mode, data, entries, url).value.writes
            == if SomeNamesUrl(entries, url) then map[url := data] else map[]
    decreases |entries|
  {
    if entries != [] {
      var n := |entries| - 1;
      WalkWritesOwnEntry(mode, data, entries[..n], url);
      EntryWritesOwnData(mode, data, entries[n], url);
      OwnEntryOrNothing(url, data, SomeNamesUrl(entries[..n], url), NamesUrl(entries[n], url));
    }
  }

  lemma OwnEntryOrNothing(url: string, data: Json, first: bool, second: bool)
    ensures (if first then map[url := data] else map[]) + (if second then map[url := data] else map[])
            == if first || second then map[url := data] else map[]
  {
  }

  /** What a visit writes: its own body under its stripped URI, exactly when the body carries that id. */
  lemma VisitWritesOwnBody(mode: Mode, server: Server, uri: string)
    requires Live(mode, server, uri) && !Fatal(mode, server, uri) && NestedIdsNonblank(server(uri).body)
    ensures Writes(mode, server, uri) ==
            if OwnId(server(uri).body, uri) then map[StripSlashes(uri) := server(uri).body] else map[]
  {
    var body := server(uri).body;
    WalkWritesOwnEntry(mode, body, body.entries, StripSlashes(uri));
  }

  /** No two of the URIs differ only in trailing slashes, and no nested id strips to the empty string. */
  ghost predicate Unambiguous(mode: Mode, server: Server, visits: seq<string>) {
    && (forall u, v :: u in visits && v in visits && StripSlashes(u) == StripSlashes(v) ==> u == v)
    && (forall u :: u in visits && Live(mode, server, u) ==> NestedIdsNonblank(server(u).body))
  }

  lemma UnambiguousIsCompatible(mode: Mode, server: Server, visits: seq<string>)
    requires Unambiguous(mode, server, visits)
    requires forall u :: u in visits ==> !Fatal(mode, server, u)
    ensures Compatible(mode, server, visits)
  {
    forall u, v, k | u in visits && v in visits && k in Writes(mode, server, u) && k in Writes(mode, server, v)
      ensures Writes(mode, server, u)[k] == Writes(mode, server, v)[k]
    {
      VisitWritesOwnBody(mode, server, u);
      VisitWritesOwnBody(mode, server, v);
    }
  }

  /** Accounting: the result maps each stripped URI to the body of the one live visited resource of that name, and
      holds exactly the live resources whose body carries their own id. */
  lemma ResultIsExact(mode: Mode, server: Server, visits: seq<string>, key: string)
    requires Unambiguous(mode, server, visits)
    requires forall u :: u in visits ==> !Fatal(mode, server, u)
    ensures var result := ResultAfter(mode, server, visits);
            && (key in result <==>
                exists u :: u in visits && Live(mode, server, u) && OwnId(server(u).body, u) && StripSlashes(u) == key)
            && (forall u :: key in result && u in visits && StripSlashes(u) == key ==> result[key] == server(u).body)
  {
    var result := ResultAfter(mode, server, visits);
    ResultAfterIsWritten(mode, server, visits);
    if key in result {
      assert WrittenBy(mode, server, visits, key, result[key]);
      var u :| u in visits && key in Writes(mode, server, u) && Writes(mode, server, u)[key] == result[key];
      VisitWritesOwnBody(mode, server, u);
    }
    forall u | u in visits && Live(mode, server, u) && OwnId(server(u).body, u) && StripSlashes(u) == key
      ensures key in result
    {
      VisitWritesOwnBody(mode, server, u);
    }
  }

  lemma {:induction false} ContainsOnlyIf(text: string, part: string)
    requires part != [] && Contains(text, part)
    ensures |part| <= |text| && part[0] in text
    decreases |text|
  {
    if !(part <= text) {
      ContainsOnlyIf(text[1..], part);
    }
  }

  lemma ShortIsNotSkipped(mode: Mode, uri: string)
    requires |uri| <= 3 && '#' !in uri
    ensures !Skipped(mode, uri)
  {
    if Contains(uri, "JsonSchemas") { ContainsOnlyIf(uri, "JsonSchemas"); }
    if Contains(uri, "SessionService") { ContainsOnlyIf(uri, "SessionService"); }
    if Contains(uri, "#") { ContainsOnlyIf(uri, "#"); }
    if Contains(uri, "PostCodes") { ContainsOnlyIf(uri, "PostCodes"); }
    if Contains(uri, "Registries") { ContainsOnlyIf(uri, "Registries"); }
    if Contains(uri, "Journal") { ContainsOnlyIf(uri, "Journal"); }
  }

  /** A collection whose members are one URI with and without a trailing slash, and two bodies with one id. */
  function TwinServer(): Server {
    (uri: string) =>
      if uri == "/r" then
        var members := [Dict([Entry(ODATA_ID, Text("/a"))]), Dict([Entry(ODATA_ID, Text("/a/"))])];
        Response(200, Dict([Entry("Members", List(members))]))
      else if uri == "/a" then Response(200, Dict([Entry(ODATA_ID, Text("/a"))]))
      else Response(200, Dict([Entry(ODATA_ID, Text("/a")), Entry("Name", Text("twin"))]))
  }

  lemma WalkOneMore(data: Json, entries: seq<Entry>, entry: Entry, url: string)
    ensures Walk(Enumerate, data, entries + [entry], url)
            == Combine(Walk(Enumerate, data, entries, url), WalkEntry(Enumerate, data, entry, url))
  {
    assert (entries + [entry])[..|entries|] == entries;
  }

  lemma CombineNothing(found: Found)
    ensures Combine(Some(Found({}, map[])), Some(found)) == Some(found)
    ensures Combine(Some(found), Some(Found({}, map[]))) == Some(found)
  {
    assert {} + found.links == found.links && map[] + found.writes == found.writes;
    assert found.links + {} == found.links && found.writes + map[] == found.writes;
  }

  lemma TwoMembers(first: Json, second: Json)
    requires MemberUri(Enumerate, first).Some? && MemberUri(Enumerate, second).Some?
    ensures MemberUris(Enumerate, [first, second])
            == Some({MemberUri(Enumerate, first).value, MemberUri(Enumerate, second).value})
  {
    assert [first, second][..1] == [first];
    assert [first][..0] == [];
    assert MemberUris(Enumerate, []) == Some({});
    var one, two := MemberUri(Enumerate, first).value, MemberUri(Enumerate, second).value;
    assert MemberUris(Enumerate, [first]) == Some({} + {one});
    assert {one} + {two} == {one, two} && {} + {one} == {one};
  }

  lemma TwinRoot()
    ensures Links(Enumerate, TwinServer(), "/r") == {"/a", "/a/"} && Writes(Enumerate, TwinServer(), "/r") == map[]
  {
    ShortIsNotSkipped(Enumerate, "/r");
    var first, second := Dict([Entry(ODATA_ID, Text("/a"))]), Dict([Entry(ODATA_ID, Text("/a/"))]);
    TwoMembers(first, second);
    var entry := Entry("Members", List([first, second]));
    var body := Dict([entry]);
    WalkOneMore(body, [], entry, "/r");
    assert [] + [entry] == [entry];
    assert StripSlashes("/r") == "/r";
    assert Visit(Enumerate, TwinServer(), "/r") == Walk(Enumerate, body, [entry], "/r");
  }

  /** Walking a body that carries the walked URL as its own id. */
  lemma WalkOwnId(data: Json, url: string)
    requires StripSlashes(url) == url
    ensures Walk(Enumerate, data, [Entry(ODATA_ID, Text(url))], url) == Some(Found({}, map[url := data]))
  {
    var id := Entry(ODATA_ID, Text(url));
    assert [] + [id] == [id];
    WalkOneMore(data, [], id, url);
    assert WalkEntry(Enumerate, data, id, url) == Some(Found({}, map[url := data]));
    assert Walk(Enumerate, data, [], url) == Some(Found({}, map[]));
    CombineNothing(Found({}, map[url := data]));
  }

  lemma WalkOwnIdAndMore(data: Json, url: string, more: Entry)
    requires StripSlashes(url) == url && more.value.Text? && more.key != ODATA_ID
    ensures Walk(Enumerate, data, [Entry(ODATA_ID, Text(url)), more], url) == Some(Found({}, map[url := data]))
  {
    var id := Entry(ODATA_ID, Text(url));
    WalkOwnId(data, url);
    assert [id] + [more] == [id, more];
    WalkOneMore(data, [id], more, url);
    assert WalkEntry(Enumerate, data, more, url) == Some(Found({}, map[]));
    CombineNothing(Found({}, map[url := data]));
  }

  lemma TwinPlain()
    ensures !Fatal(Enumerate, TwinServer(), "/a")
    ensures Writes(Enumerate, TwinServer(), "/a") == map["/a" := TwinServer()("/a").body]
  {
    ShortIsNotSkipped(Enumerate, "/a");
    assert StripSlashes("/a") == "/a";
    var body := TwinServer()("/a").body;
    WalkOwnId(body, "/a");
    assert Visit(Enumerate, TwinServer(), "/a") == Walk(Enumerate, body, body.entries, "/a");
  }

  lemma TwinSlashed()
    ensures !Fatal(Enumerate, TwinServer(), "/a/")
    ensures Writes(Enumerate, TwinServer(), "/a/") == map["/a" := TwinServer()("/a/").body]
  {
    ShortIsNotSkipped(Enumerate, "/a/");
    assert "/a/"[..2] == "/a" && StripSlashes("/a") == "/a";
    var body := TwinServer()("/a/").body;
    assert "Name"[0] != ODATA_ID[0];
    WalkOwnIdAndMore(body, "/a", body.entries[1]);
    assert Visit(Enumerate, TwinServer(), "/a/") == Walk(Enumerate, body, body.entries, "/a");
  }

  /** The order within a round can matter: two URIs that differ in a trailing slash are members of one collection, and
      the body visited last is the one kept. */
  lemma OrderMattersForSlashTwins()
    ensures Links(Enumerate, TwinServer(), "/r") == {"/a", "/a/"}
    ensures !Fatal(Enumerate, TwinServer(), "/a") && !Fatal(Enumerate, TwinServer(), "/a/")
    ensures ResultAfter(Enumerate, TwinServer(), ["/r", "/a", "/a/"])
            != ResultAfter(Enumerate, TwinServer(), ["/r", "/a/", "/a"])
  {
    TwinRoot();
    TwinPlain();
    TwinSlashed();
    LastWriteWins(Enumerate, TwinServer(), ["/r", "/a"], "/a/");
    LastWriteWins(Enumerate, TwinServer(), ["/r", "/a/"], "/a");
    assert ["/r", "/a"] + ["/a/"] == ["/r", "/a", "/a/"];
    assert ["/r", "/a/"] + ["/a"] == ["/r", "/a/", "/a"];
    assert |TwinServer()("/a").body.entries| != |TwinServer()("/a/").body.entries|;
    assert "/a" in Writes(Enumerate, TwinServer(), "/a") && "/a" in Writes(Enumerate, TwinServer(), "/a/");
  }

  lemma LastWriteWins(mode: Mode, server: Server, visits: seq<string>, uri: string)
    ensures forall k :: k in Writes(mode, server, uri) ==>
              var r := ResultAfter(mode, server, visits + [uri]); k in r && r[k] == Writes(mode, server, uri)[k]
  {
    AfterOneMore(mode, server, visits, uri);
  }

  // ----- enumerate_request against enumerate -----

  lemma {:induction false} MembersAgree(members: seq<Json>)
    requires MemberUris(Enumerate, members).Some?
    ensures MemberUris(EnumerateRequest, members) == MemberUris(Enumerate, members)
    decreases |members|
  {
    if members != [] {
      MembersAgree(members[..|members| - 1]);
    }
  }

  /** Where the stricter walk raises no exception, the two walks find the same. */
  lemma {:induction false} WalksAgree(data: Json, entries: seq<Entry>, url: string)
    requires Walk(Enumerate, data, entries, url).Some?
    ensures Walk(EnumerateRequest, data, entries, url) == Walk(Enumerate, data, entries, url)
    decreases entries
  {
    if entries != [] {
      var last := entries[|entries| - 1];
      WalksAgree(data, entries[..|entries| - 1], url);
      match last.value
      case Dict(inner) => WalksAgree(last.value, inner, "");
      case List(items) => if last.key == "Members" { MembersAgree(items); }
      case _ =>
    }
  }

  lemma VisitsAgree(server: Server, uri: string)
    requires !Fatal(Enumerate, server, uri)
    ensures !Fatal(EnumerateRequest, server, uri)
    ensures Links(EnumerateRequest, server, uri) <= Links(Enumerate, server, uri)
    ensures !Skipped(EnumerateRequest, uri) ==> Writes(EnumerateRequest, server, uri) == Writes(Enumerate, server, uri)
  {
    if Live(Enumerate, server, uri) {
      var body := server(uri).body;
      WalksAgree(body, body.entries, StripSlashes(uri));
    }
  }

  /** If `enumerate` returns normally then so does `enumerate_request` from the same start, and reaches no further. */
  lemma RequestReachesNoFurther(server: Server, start: string, reached: set<string>, requested: set<string>)
    requires ReachedSet(Enumerate, server, start, reached) && ReachedSet(EnumerateRequest, server, start, requested)
    requires forall u :: u in reached ==> !Fatal(Enumerate, server, u)
    ensures requested <= reached
    ensures forall u :: u in requested ==> !Fatal(EnumerateRequest, server, u)
  {
    ReachedSetIsLeast(Enumerate, server, start, reached);
    forall u | u in reached
      ensures Links(EnumerateRequest, server, u) <= reached
    {
      VisitsAgree(server, u);
    }
    assert Closed(EnumerateRequest, server, reached);
    forall u | u in requested
      ensures u in reached && !Fatal(EnumerateRequest, server, u)
    {
      var path :| Path(EnumerateRequest, server, start, path, u);
      PathStaysInside(EnumerateRequest, server, start, path, u, reached);
      VisitsAgree(server, u);
    }
  }

  predicate SubMap(small: map<string, Json>, large: map<string, Json>) {
    forall k :: k in small ==> k in large && large[k] == small[k]
  }

  /** In whatever orders the two programs issue their requests, the result of `enumerate_request` is a sub-map of that
      of `enumerate`, if no two resources write different data under one key. */
  lemma RequestIsSubMap(server: Server, start: string, reached: set<string>, requested: set<string>,
                        full: seq<string>, part: seq<string>)
    requires ReachedSet(Enumerate, server, start, reached) && ReachedSet(EnumerateRequest, server, start, requested)
    requires forall u :: u in reached ==> !Fatal(Enumerate, server, u)
    requires VisitLog(Enumerate, reached, full) && VisitLog(EnumerateRequest, requested, part)
    requires Compatible(Enumerate, server, full)
    ensures SubMap(ResultAfter(EnumerateRequest, server, part), ResultAfter(Enumerate, server, full))
  {
    RequestReachesNoFurther(server, start, reached, requested);
    var small, large := ResultAfter(EnumerateRequest, server, part), ResultAfter(Enumerate, server, full);
    ResultAfterIsWritten(EnumerateRequest, server, part);
    ResultAfterIsWritten(Enumerate, server, full);
    forall k | k in small
      ensures k in large && large[k] == small[k]
    {
      assert WrittenBy(EnumerateRequest, server, part, k, small[k]);
      var u :| && u in part && k in Writes(EnumerateRequest, server, u)
               && Writes(EnumerateRequest, server, u)[k] == small[k];
      VisitsAgree(server, u);
      assert u in full;
      assert WrittenBy(Enumerate, server, full, k, large[k]);
    }
  }

  /** For every key, the last writers under the two programs write the same data. */
  ghost predicate LastWritersMatch(server: Server, start: string, reached: set<string>, requested: set<string>) {
    forall u, v, k ::
      && LastWriter(EnumerateRequest, server, start, requested, k, u)
      && LastWriter(Enumerate, server, start, reached, k, v)
      ==> Writes(EnumerateRequest, server, u)[k] == Writes(Enumerate, server, v)[k]
  }

  /** Whatever orders the rounds of the two programs take, the one result is a sub-map of the other. */
  ghost predicate AlwaysSubMap(server: Server, start: string, reached: set<string>, requested: set<string>) {
    forall part, full ::
      && InSomeOrder(EnumerateRequest, server, start, requested, part)
      && InSomeOrder(Enumerate, server, start, reached, full)
      ==> SubMap(ResultAfter(EnumerateRequest, server, part), ResultAfter(Enumerate, server, full))
  }

  lemma MatchFixesKey(server: Server, start: string, reached: set<string>, requested: set<string>,
                      part: seq<string>, full: seq<string>, key: string)
    requires requested <= reached && forall u :: u in reached ==> !Fatal(Enumerate, server, u)
    requires LastWritersMatch(server, start, reached, requested)
    requires InSomeOrder(EnumerateRequest, server, start, requested, part)
    requires InSomeOrder(Enumerate, server, start, reached, full)
    requires key in ResultAfter(EnumerateRequest, server, part)
    ensures key in ResultAfter(Enumerate, server, full)
    ensures ResultAfter(Enumerate, server, full)[key] == ResultAfter(EnumerateRequest, server, part)[key]
  {
    var i := LastVisitIsLastWriter(EnumerateRequest, server, start, requested, part, key);
    VisitsAgree(server, part[i]);
    var p := WriterIsVisited(Enumerate, server, reached, full, part[i], key);
    var j := LastVisitIsLastWriter(Enumerate, server, start, reached, full, key);
  }

  /** Exactly when the result of `enumerate_request` is a sub-map of that of `enumerate`, whatever orders they take. */
  lemma RequestIsSubMapExactly(server: Server, start: string, reached: set<string>, requested: set<string>)
    requires ReachedSet(Enumerate, server, start, reached) && ReachedSet(EnumerateRequest, server, start, requested)
    requires forall u :: u in reached ==> !Fatal(Enumerate, server, u)
    ensures AlwaysSubMap(server, start, reached, requested) <==> LastWritersMatch(server, start, reached, requested)
  {
    RequestReachesNoFurther(server, start, reached, requested);
    if LastWritersMatch(server, start, reached, requested) {
      forall part, full | && InSomeOrder(EnumerateRequest, server, start, requested, part)
                          && InSomeOrder(Enumerate, server, start, reached, full)
        ensures SubMap(ResultAfter(EnumerateRequest, server, part), ResultAfter(Enumerate, server, full))
      {
        forall k | k in ResultAfter(EnumerateRequest, server, part)
          ensures k in ResultAfter(Enumerate, server, full)
          ensures ResultAfter(Enumerate, server, full)[k] == ResultAfter(EnumerateRequest, server, part)[k]
        {
          MatchFixesKey(server, start, reached, requested, part, full, k);
        }
      }
    }
    if AlwaysSubMap(server, start, reached, requested) {
      forall u, v, k | && LastWriter(EnumerateRequest, server, start, requested, k, u)
                       && LastWriter(Enumerate, server, start, reached, k, v)
        ensures Writes(EnumerateRequest, server, u)[k] == Writes(Enumerate, server, v)[k]
      {
        var part := OrderEndingIn(EnumerateRequest, server, start, requested, u);
        var full := OrderEndingIn(Enumerate, server, start, reached, v);
        LastOfLastRoundWins(EnumerateRequest, server, start, requested, part, u, k);
        LastOfLastRoundWins(Enumerate, server, start, reached, full, v, k);
      }
    }
  }

  /** On the slash twins, visited in different orders, it is not. */
  lemma TwinsAreNoSubMap()
    ensures !SubMap(ResultAfter(EnumerateRequest, TwinServer(), ["/r", "/a", "/a/"]),
                    ResultAfter(Enumerate, TwinServer(), ["/r", "/a/", "/a"]))
  {
    TwinPlain();
    TwinSlashed();
    ShortIsNotSkipped(EnumerateRequest, "/a/");
    VisitsAgree(TwinServer(), "/a/");
    LastWriteWins(EnumerateRequest, TwinServer(), ["/r", "/a"], "/a/");
    LastWriteWins(Enumerate, TwinServer(), ["/r", "/a/"], "/a");
    assert ["/r", "/a"] + ["/a/"] == ["/r", "/a", "/a/"];
    assert ["/r", "/a/"] + ["/a"] == ["/r", "/a/", "/a"];
    assert |TwinServer()("/a").body.entries| != |TwinServer()("/a/").body.entries|;
    assert "/a" in Writes(Enumerate, TwinServer(), "/a") && "/a" in Writes(EnumerateRequest, TwinServer(), "/a/");
  }
}
