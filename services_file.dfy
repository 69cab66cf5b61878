/** The services metadata parser of src/serviceowners/services_file.py, over a
    small model of the YAML/JSON document tree: owner references, contacts,
    string lists and the services map, each with the shape checks and errors
    of the source. */
module ServicesFile {
  import opened Wrappers
  import opened Strings

  /** A loaded YAML/JSON value. A mapping keeps its entries in document order. */
  datatype Value =
    | Null
    | Bool(b: bool)
    | Int(i: int)
    | Str(s: string)
    | List(items: seq<Value>)
    | Mapping(entries: seq<(Value, Value)>)

  /** Python truthiness. */
  predicate Truthy(v: Value) {
    match v
    case Null => false
    case Bool(b) => b
    case Int(i) => i != 0
    case Str(s) => s != []
    case List(items) => items != []
    case Mapping(entries) => entries != []
  }

  /** `obj.get(key)`: the value stored under the string key `key`, or `None`. */
  function Get(es: seq<(Value, Value)>, key: string): (v: Value)
    ensures (forall i :: 0 <= i < |es| ==> es[i].0 != Str(key)) ==> v == Null
    ensures v != Null ==> exists i :: 0 <= i < |es| && es[i].0 == Str(key) && es[i].1 == v
    ensures forall i :: FirstKeyAt(es, key, i) ==> v == es[i].1
  {
    if es == [] then Null
    else if es[0].0 == Str(key) then es[0].1
    else
      var v := Get(es[1..], key);
      assert v != Null ==> exists i :: 0 <= i < |es[1..]| && es[1..][i].0 == Str(key) && es[1..][i].1 == v;
      v
  }

  /** The entry at `i` is the first one stored under the string key `key`. */
  predicate FirstKeyAt(es: seq<(Value, Value)>, key: string, i: int) {
    0 <= i < |es| && es[i].0 == Str(key) && forall j :: 0 <= j < i ==> es[j].0 != Str(key)
  }

  /** `key in obj`. */
  predicate HasKey(es: seq<(Value, Value)>, key: string) {
    exists i :: 0 <= i < |es| && es[i].0 == Str(key)
  }

  /** What went wrong; each error also names the file (and service) it is about. */
  datatype ServicesErrorKind =
    | NotAMapping            // the document is not a mapping
    | ServicesNotMapping     // the services map is not a mapping
    | BadServiceKey          // a service key is not a non-blank string
    | ServiceNotMapping(name: string)
    | OwnersNotList(name: string)
    | OwnerBadType           // an owner is neither a string nor a mapping
    | OwnerUnnamed           // an owner mapping has none of team/user/email
    | ContactNotMapping
    | NotStringList(field: string)

  datatype ServicesError = ServicesError(source: string, kind: ServicesErrorKind)

  // ---------------------------------------------------------------------------
  // Owners and contacts
  // ---------------------------------------------------------------------------

  /** `OwnerRef`: `Null` stands for a field left as `None`. */
  datatype OwnerRef = OwnerRef(team: Value, user: Value, email: Value) {
    /** `display`: the first truthy of team, user and email, else `""`. */
    function Display(): Value {
      if Truthy(team) then team
      else if Truthy(user) then user
      else if Truthy(email) then email
      else Str("")
    }
  }

  /** A string owner reads as an e-mail address: it has `@` and `.`, no space,
      and does not start with `@`. */
  predicate EmailLike(s: string) {
    '@' in s && '.' in s && ' ' !in s && !StartsWith(s, "@")
  }

  /** `OwnerRef.from_obj`. */
  function OwnerFromObj(obj: Value, source: string): Result<OwnerRef, ServicesError> {
    match obj
    case Str(s) =>
      if EmailLike(s) then Success(OwnerRef(Null, Null, obj))
      else if StartsWith(s, "@") then Success(OwnerRef(obj, Null, Null))
      else Success(OwnerRef(Null, obj, Null))
    case Mapping(es) =>
      var team, user, email := Get(es, "team"), Get(es, "user"), Get(es, "email");
      if !(Truthy(team) || Truthy(user) || Truthy(email)) then Failure(ServicesError(source, OwnerUnnamed))
      else Success(OwnerRef(team, user, email))
    case _ => Failure(ServicesError(source, OwnerBadType))
  }

  /** A string owner is always accepted, fills exactly one field (the e-mail
      when it looks like an address, the team when it starts with `@`, the
      user otherwise) and displays as itself. */
  lemma {:induction false} OwnerFromString(s: string, source: string)
    ensures var r := OwnerFromObj(Str(s), source);
      && r.Success?
      && r.value.Display() == Str(s)
      && (r.value.email == Str(s) <==> EmailLike(s))
      && (r.value.team == Str(s) <==> !EmailLike(s) && StartsWith(s, "@"))
      && (r.value.user == Str(s) <==> !EmailLike(s) && !StartsWith(s, "@"))
      && |set v | v in [r.value.team, r.value.user, r.value.email] && v != Null| == 1
  {
    var o := OwnerFromObj(Str(s), source).value;
    if EmailLike(s) {
      assert o == OwnerRef(Null, Null, Str(s));
      assert (set v | v in [o.team, o.user, o.email] && v != Null) == {Str(s)};
    } else if StartsWith(s, "@") {
      assert (set v | v in [o.team, o.user, o.email] && v != Null) == {Str(s)};
    } else {
      assert (set v | v in [o.team, o.user, o.email] && v != Null) == {Str(s)};
    }
  }

  /** A mapping owner is accepted iff one of team, user and email is truthy,
      and then it displays as a truthy one of them. */
  lemma {:induction false} OwnerFromMapping(es: seq<(Value, Value)>, source: string)
    ensures var r := OwnerFromObj(Mapping(es), source);
      var team, user, email := Get(es, "team"), Get(es, "user"), Get(es, "email");
      && (r.Success? <==> Truthy(team) || Truthy(user) || Truthy(email))
      && (r.Failure? ==> r.error == ServicesError(source, OwnerUnnamed))
      && (r.Success? ==> r.value == OwnerRef(team, user, email) && Truthy(r.value.Display())
                         && r.value.Display() in [team, user, email])
  {
  }

  /** Any owner other than a string or a mapping is an error. */
  lemma {:induction false} OwnerBadTypes(obj: Value, source: string)
    requires !obj.Str? && !obj.Mapping?
    ensures OwnerFromObj(obj, source) == Failure(ServicesError(source, OwnerBadType))
  {
  }

  /** `Contact`. */
  datatype Contact = Contact(slack: Value, email: Value)

  /** `Contact.from_obj`. */
  function ContactFromObj(obj: Value, source: string): (r: Result<Contact, ServicesError>)
    ensures r.Success? <==> obj.Null? || obj.Mapping?
    ensures obj.Null? ==> r == Success(Contact(Null, Null))
    ensures r.Failure? ==> r.error == ServicesError(source, ContactNotMapping)
  {
    match obj
    case Null => Success(Contact(Null, Null))
    case Mapping(es) => Success(Contact(Get(es, "slack"), Get(es, "email")))
    case _ => Failure(ServicesError(source, ContactNotMapping))
  }

  // ---------------------------------------------------------------------------
  // String lists
  // ---------------------------------------------------------------------------

  predicate AllStr(items: seq<Value>) {
    forall i :: 0 <= i < |items| ==> items[i].Str?
  }

  /** The strings of a list of string values. */
  function Strs(items: seq<Value>): (xs: seq<string>)
    requires AllStr(items)
    ensures |xs| == |items|
    ensures forall i :: 0 <= i < |items| ==> items[i] == Str(xs[i])
  {
    seq(|items|, i requires 0 <= i < |items| => items[i].s)
  }

  /** The list value holding the strings `xs`. */
  function StrValues(xs: seq<string>): (items: seq<Value>)
    ensures |items| == |xs|
    ensures forall i :: 0 <= i < |xs| ==> items[i] == Str(xs[i])
  {
    seq(|xs|, i requires 0 <= i < |xs| => Str(xs[i]))
  }

  /** `_ensure_str_list`. */
  function EnsureStrList(value: Value, source: string, fieldName: string): Result<seq<string>, ServicesError> {
    if value.Null? then Success([])
    else if value.List? && AllStr(value.items) then Success(Strs(value.items))
    else Failure(ServicesError(source, NotStringList(fieldName)))
  }

  /** `None` is the empty list, a list of strings comes back as it is, and
      anything else is an error. */
  lemma {:induction false} EnsureStrListCases(value: Value, xs: seq<string>, source: string, fieldName: string)
    ensures EnsureStrList(Null, source, fieldName) == Success([])
    ensures EnsureStrList(List(StrValues(xs)), source, fieldName) == Success(xs)
    ensures EnsureStrList(value, source, fieldName).Success? <==> value.Null? || (value.List? && AllStr(value.items))
  {
    var items := StrValues(xs);
    assert AllStr(items);
    assert Strs(items) == xs;
  }

  // ---------------------------------------------------------------------------
  // Services
  // ---------------------------------------------------------------------------

  /** `Service`: fields other than the name, owners, contact and lists are kept
      as the values the document gave. */
  datatype Service = Service(
    name: string,
    description: Value,
    owners: seq<OwnerRef>,
    contact: Contact,
    docs: Value,
    runbook: Value,
    oncall: Value,
    dashboards: seq<string>,
    tags: seq<string>)

  /** `[OwnerRef.from_obj(o, ...) for o in owners_raw]`: the first failure, or
      every owner. */
  function OwnersFrom(items: seq<Value>, source: string): (r: Result<seq<OwnerRef>, ServicesError>)
    ensures r.Success? ==> |r.value| == |items|
    ensures r.Success? ==> forall i :: 0 <= i < |items| ==> OwnerFromObj(items[i], source) == Success(r.value[i])
    ensures r.Failure? ==> exists k :: FirstBadOwner(items, source, k) && OwnerFromObj(items[k], source) == Failure(r.error)
    decreases |items|
  {
    if items == [] then Success([])
    else
      var n := |items| - 1;
      var prefix := items[..n];
      var done :- OwnersFrom(prefix, source);
      assert forall i :: 0 <= i < n ==> items[i] == prefix[i];
      var o :- (assert FirstBadOwner(items, source, n) || OwnerFromObj(items[n], source).Success?;
                OwnerFromObj(items[n], source));
      Success(done + [o])
  }

  /** The owner at `k` is the first that `from_obj` rejects. */
  predicate FirstBadOwner(items: seq<Value>, source: string, k: int) {
    0 <= k < |items| && OwnerFromObj(items[k], source).Failure?
    && forall j :: 0 <= j < k ==> OwnerFromObj(items[j], source).Success?
  }

  /** The name `source:service:name` errors about one service carry. */
  function ServiceSource(source: string, name: string): string {
    source + ":service:" + name
  }

  /** One pass of the loop of `parse_services_obj`: one key and its body. */
  function ParseService(key: Value, raw: Value, source: string): Result<Service, ServicesError> {
    if !key.Str? || PyStrip(key.s) == [] then Failure(ServicesError(source, BadServiceKey))
    else
      var name := key.s;
      var body := if raw.Null? then Mapping([]) else raw;
      if !body.Mapping? then Failure(ServicesError(source, ServiceNotMapping(name)))
      else
        var o := Get(body.entries, "owners");
        var ownersRaw := if Truthy(o) then o else List([]);
        if !ownersRaw.List? then Failure(ServicesError(source, OwnersNotList(name)))
        else
          var src := ServiceSource(source, name);
          var owners :- OwnersFrom(ownersRaw.items, src);
          var contact :- ContactFromObj(Get(body.entries, "contact"), src);
          var dashboards :- EnsureStrList(Get(body.entries, "dashboards"), source, name + ".dashboards");
          var tags :- EnsureStrList(Get(body.entries, "tags"), source, name + ".tags");
          Success(Service(name, Get(body.entries, "description"), owners, contact,
                          Get(body.entries, "docs"), Get(body.entries, "runbook"), Get(body.entries, "oncall"),
                          dashboards, tags))
  }

  /** The result of reading each entry on its own. */
  function EntryResults(es: seq<(Value, Value)>, source: string): (rs: seq<Result<Service, ServicesError>>)
    ensures |rs| == |es|
  {
    seq(|es|, i requires 0 <= i < |es| => ParseService(es[i].0, es[i].1, source))
  }

  lemma EntryResultsAt(es: seq<(Value, Value)>, source: string, i: int)
    requires 0 <= i < |es|
    ensures EntryResults(es, source)[i] == ParseService(es[i].0, es[i].1, source)
  {
  }

  /** Every service in order, or the first error. */
  function CollectServices(rs: seq<Result<Service, ServicesError>>): Result<seq<Service>, ServicesError>
    decreases |rs|
  {
    if rs == [] then Success([])
    else
      var done :- CollectServices(rs[..|rs| - 1]);
      var svc :- rs[|rs| - 1];
      Success(done + [svc])
  }

  /** The services of the entries `es`, in order, or the first entry's error. */
  function ParseEntries(es: seq<(Value, Value)>, source: string): Result<seq<Service>, ServicesError> {
    CollectServices(EntryResults(es, source))
  }

  /** The mapping `parse_services_obj` reads the services from: the value of a
      top-level `services` key when it is a mapping, otherwise the document. */
  function ServicesMap(es: seq<(Value, Value)>): Value {
    if HasKey(es, "services") && Get(es, "services").Mapping? then Get(es, "services") else Mapping(es)
  }

  /** `parse_services_obj`, with the services as a list in document order. */
  function ParsedServices(data: Value, source: string): Result<seq<Service>, ServicesError> {
    if data.Null? then Success([])
    else if !data.Mapping? then Failure(ServicesError(source, NotAMapping))
    else
      var sm := ServicesMap(data.entries);
      if !sm.Mapping? then Failure(ServicesError(source, ServicesNotMapping))
      else ParseEntries(sm.entries, source)
  }

  /** `parse_services_obj`, filling the services list entry by entry. */
  method ParseServicesObj(data: Value, source: string) returns (r: Result<seq<Service>, ServicesError>)
    ensures r == ParsedServices(data, source)
  {
    if data.Null? {
      return Success([]);
    }
    if !data.Mapping? {
      return Failure(ServicesError(source, NotAMapping));
    }
    var sm := ServicesMap(data.entries);
    if !sm.Mapping? {
      return Failure(ServicesError(source, ServicesNotMapping));
    }
    var es := sm.entries;
    var services: seq<Service> := [];
    for i := 0 to |es|
      invariant CollectServices(EntryResults(es, source)[..i]) == Success(services)
    {
      var one := ParseService(es[i].0, es[i].1, source);
      EntryStep(EntryResults(es, source), i, services, one);
      EntryResultsAt(es, source, i);
      if one.Failure? {
        return Failure(one.error);
      }
      services := services + [one.value];
    }
    assert EntryResults(es, source)[..|es|] == EntryResults(es, source);
    return Success(services);
  }

  /** One pass of the loop: a failing entry ends the parse with its error,
      and a service read from the entry extends the list. */
  lemma {:induction false} EntryStep(rs: seq<Result<Service, ServicesError>>, i: nat, done: seq<Service>,
                                     one: Result<Service, ServicesError>)
    requires i < |rs| && CollectServices(rs[..i]) == Success(done) && one == rs[i]
    ensures one.Failure? ==> CollectServices(rs) == Failure(one.error)
    ensures one.Success? ==>
      CollectServices(rs[..i + 1]) == Success(done + [one.value])
  {
    assert rs[..i + 1][..i] == rs[..i];
    if one.Failure? {
      CollectStops(rs, i + 1);
    }
  }

  lemma {:induction false} CollectStops(rs: seq<Result<Service, ServicesError>>, i: nat)
    requires i <= |rs| && CollectServices(rs[..i]).Failure?
    ensures CollectServices(rs) == CollectServices(rs[..i])
    decreases |rs| - i
  {
    if i == |rs| {
      assert rs[..i] == rs;
    } else {
      assert rs[..i + 1][..i] == rs[..i];
      CollectStops(rs, i + 1);
    }
  }

  /** A successful collection keeps every result's service, one for one. */
  lemma {:induction false} CollectAllRead(rs: seq<Result<Service, ServicesError>>)
    requires CollectServices(rs).Success?
    ensures |CollectServices(rs).value| == |rs|
    ensures forall j :: 0 <= j < |rs| ==> rs[j] == Success(CollectServices(rs).value[j])
    decreases |rs|
  {
    if rs != [] {
      var n := |rs| - 1;
      CollectAllRead(rs[..n]);
      assert forall j :: 0 <= j < n ==> rs[..n][j] == rs[j];
    }
  }

  /** A failed collection has the error of its first failing result. */
  lemma {:induction false} CollectFirstError(rs: seq<Result<Service, ServicesError>>)
    requires CollectServices(rs).Failure?
    ensures exists k :: 0 <= k < |rs| && rs[k] == Failure(CollectServices(rs).error)
                        && forall j :: 0 <= j < k ==> rs[j].Success?
    decreases |rs|
  {
    var n := |rs| - 1;
    var prefix := rs[..n];
    if CollectServices(prefix).Failure? {
      CollectFirstError(prefix);
      var k :| 0 <= k < |prefix| && prefix[k] == Failure(CollectServices(prefix).error)
               && forall j :: 0 <= j < k ==> prefix[j].Success?;
      assert rs[k] == prefix[k];
      assert forall j :: 0 <= j < k ==> rs[j] == prefix[j];
    } else {
      CollectAllRead(prefix);
      assert forall j :: 0 <= j < n ==> rs[j] == prefix[j];
    }
  }

  // ---------------------------------------------------------------------------
  // Properties of the services map
  // ---------------------------------------------------------------------------

  /** An empty document has no services; a document that is not a mapping is
      an error; a top-level `services` mapping is unwrapped, and otherwise the
      document itself is the services map. */
  lemma {:induction false} ParsedServicesShape(data: Value, source: string)
    ensures data.Null? ==> ParsedServices(data, source) == Success([])
    ensures !data.Null? && !data.Mapping? ==> ParsedServices(data, source) == Failure(ServicesError(source, NotAMapping))
    ensures data.Mapping? && HasKey(data.entries, "services") && Get(data.entries, "services").Mapping? ==>
              ParsedServices(data, source) == ParseEntries(Get(data.entries, "services").entries, source)
    ensures data.Mapping? && !(HasKey(data.entries, "services") && Get(data.entries, "services").Mapping?) ==>
              ParsedServices(data, source) == ParseEntries(data.entries, source)
  {
  }

  /** The services map is always a mapping, so that error is never raised. */
  lemma {:induction false} ServicesMapIsMapping(es: seq<(Value, Value)>)
    ensures ServicesMap(es).Mapping?
  {
  }

  /** The parsed services follow the entries one for one, each read from its
      own entry and named by its key, which is a non-blank string. */
  lemma {:induction false} ParseEntriesNames(es: seq<(Value, Value)>, source: string)
    requires ParseEntries(es, source).Success?
    ensures var svcs := ParseEntries(es, source).value;
      && |svcs| == |es|
      && forall i :: 0 <= i < |es| ==> ServiceFromEntry(es[i], source, svcs[i])
  {
    var rs := EntryResults(es, source);
    CollectAllRead(rs);
    var svcs := ParseEntries(es, source).value;
    forall i | 0 <= i < |es|
      ensures ServiceFromEntry(es[i], source, svcs[i])
    {
      EntryNamed(es, source, svcs, i);
    }
  }

  /** `svc` is read from the entry `e`, whose key is the service's non-blank name. */
  predicate ServiceFromEntry(e: (Value, Value), source: string, svc: Service) {
    && ParseService(e.0, e.1, source) == Success(svc)
    && e.0 == Str(svc.name)
    && PyStrip(svc.name) != []
  }

  lemma EntryNamed(es: seq<(Value, Value)>, source: string, svcs: seq<Service>, i: int)
    requires 0 <= i < |es| && |svcs| == |es|
    requires EntryResults(es, source)[i] == Success(svcs[i])
    ensures ServiceFromEntry(es[i], source, svcs[i])
  {
    EntryResultsAt(es, source, i);
    ServiceNamed(es[i].0, es[i].1, source);
  }

  lemma {:induction false} ServiceNamed(key: Value, raw: Value, source: string)
    requires ParseService(key, raw, source).Success?
    ensures key == Str(ParseService(key, raw, source).value.name)
    ensures PyStrip(ParseService(key, raw, source).value.name) != []
  {
  }

  /** The entries fail to parse exactly when one of them does, and then with
      the error of the first that does. */
  lemma {:induction false} ParseEntriesFirstError(es: seq<(Value, Value)>, source: string)
    requires ParseEntries(es, source).Failure?
    ensures exists k :: 0 <= k < |es| && ParseService(es[k].0, es[k].1, source) == Failure(ParseEntries(es, source).error)
                        && forall j :: 0 <= j < k ==> EntryReads(es[j], source)
  {
    var rs := EntryResults(es, source);
    CollectFirstError(rs);
    var k :| 0 <= k < |rs| && rs[k] == Failure(CollectServices(rs).error) && forall j :: 0 <= j < k ==> rs[j].Success?;
    EntryResultsAt(es, source, k);
    forall j | 0 <= j < k
      ensures EntryReads(es[j], source)
    {
      EntryResultsAt(es, source, j);
    }
  }

  /** The entry `e` reads as a service. */
  predicate EntryReads(e: (Value, Value), source: string) {
    ParseService(e.0, e.1, source).Success?
  }

  /** A service key must be a non-blank string; a `None` body reads as an
      empty mapping; a truthy `owners` that is not a list is an error. */
  lemma {:induction false} ParseServiceChecks(key: Value, raw: Value, source: string)
    ensures !key.Str? || PyStrip(key.s) == [] ==>
              ParseService(key, raw, source) == Failure(ServicesError(source, BadServiceKey))
    ensures ParseService(key, Null, source) == ParseService(key, Mapping([]), source)
    ensures key.Str? && PyStrip(key.s) != [] && raw.Mapping? && Truthy(Get(raw.entries, "owners"))
            && !Get(raw.entries, "owners").List? ==>
              ParseService(key, raw, source) == Failure(ServicesError(source, OwnersNotList(key.s)))
  {
  }

  /** A service whose body is `None` or empty has no owners, an empty
      contact and empty lists. */
  lemma {:induction false} EmptyServiceBody(name: string, source: string)
    requires PyStrip(name) != []
    ensures ParseService(Str(name), Null, source) ==
      Success(Service(name, Null, [], Contact(Null, Null), Null, Null, Null, [], []))
  {
  }

  /** A service read from a mapping body has the owners `from_obj` reads from
      its `owners` list (none when `owners` is missing or falsy), the contact,
      dashboards and tags read from their keys, and the other fields as given. */
  lemma {:induction false} ServiceFields(key: Value, raw: Value, source: string)
    requires ParseService(key, raw, source).Success?
    ensures var svc := ParseService(key, raw, source).value;
      var body := if raw.Null? then Mapping([]) else raw;
      var src := ServiceSource(source, svc.name);
      && body.Mapping?
      && var o := Get(body.entries, "owners");
      && (Truthy(o) ==> o.List? && OwnersFrom(o.items, src) == Success(svc.owners))
      && (!Truthy(o) ==> svc.owners == [])
      && ContactFromObj(Get(body.entries, "contact"), src) == Success(svc.contact)
      && EnsureStrList(Get(body.entries, "dashboards"), source, svc.name + ".dashboards") == Success(svc.dashboards)
      && EnsureStrList(Get(body.entries, "tags"), source, svc.name + ".tags") == Success(svc.tags)
      && svc.description == Get(body.entries, "description")
      && svc.docs == Get(body.entries, "docs")
      && svc.runbook == Get(body.entries, "runbook")
      && svc.oncall == Get(body.entries, "oncall")
  {
  }

  /** An owner that `from_obj` rejects fails the whole service with that
      owner's error, when it is the first such owner. */
  lemma {:induction false} BadOwnerFailsService(name: string, entries: seq<(Value, Value)>, source: string, k: int)
    requires PyStrip(name) != []
    requires Get(entries, "owners").List?
    requires FirstBadOwner(Get(entries, "owners").items, ServiceSource(source, name), k)
    ensures ParseService(Str(name), Mapping(entries), source) ==
      Failure(OwnerFromObj(Get(entries, "owners").items[k], ServiceSource(source, name)).error)
  {
    var items := Get(entries, "owners").items;
    var src := ServiceSource(source, name);
    var r := OwnersFrom(items, src);
    assert r.Failure?;
    var k' :| FirstBadOwner(items, src, k') && OwnerFromObj(items[k'], src) == Failure(r.error);
    assert k' == k;
  }
}
