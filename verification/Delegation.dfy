/** Following referrals from the root servers down to the parent of a zone. Sending a
    query and resolving a name are functions the walk is given. */
module Delegation {
  import opened Options
  import opened Text

  datatype Ds = Ds(keyTag: nat, algorithm: nat, digestType: nat, digest: string)

  datatype Record = Record(name: string, kind: string, data: string, ds: Option<Ds>)

  datatype Message = Message(
    rcode: nat,
    rcodeName: string,
    aa: bool,
    answer: seq<Record>,
    authority: seq<Record>,
    additional: seq<Record>)

  datatype Reply = Answered(message: Message) | Failed(reason: string)

  /** The injected capabilities and limits: `query(name, type, server)`, `lookup(name)`. */
  datatype Setup = Setup(
    query: (string, string, string) -> Reply,
    rootServers: seq<string>,
    lookup: string -> Option<seq<string>>,
    attemptsPerLevel: Option<nat>,
    maxDepth: Option<nat>)

  datatype Status = Delegated | NotDelegated | Unreachable | ServedByParent

  datatype Outcome = Outcome(
    zone: string,
    status: Status,
    nameservers: seq<string>,
    glue: map<string, seq<string>>,
    ds: seq<Ds>,
    parentServers: seq<string>,
    path: seq<string>,
    error: Option<string>)

  predicate IsSuffix(zone: string, parent: string) {
    parent == "." || zone == parent || EndsWith(zone, "." + parent)
  }

  /* ------------------------------------------------- reading a message */

  predicate IsNs(r: Record, owner: string) {
    r.kind == "NS" && Lower(r.name) == owner
  }

  /** The NS records, in order. */
  function NsRecords(records: seq<Record>): (r: seq<Record>)
    ensures forall x :: x in r <==> x in records && x.kind == "NS"
  {
    if records == [] then []
    else
      var init, last := NsRecords(records[..|records| - 1]), records[|records| - 1];
      if last.kind == "NS" then init + [last] else init
  }

  /** The targets of the owner's NS records, in order. */
  function NsNames(records: seq<Record>, owner: string): seq<string> {
    if records == [] then []
    else
      var init, last := NsNames(records[..|records| - 1], owner), records[|records| - 1];
      if IsNs(last, owner) then init + [Lower(last.data)] else init
  }

  function Distinct(names: seq<string>): seq<string> {
    if names == [] then []
    else
      var init, last := Distinct(names[..|names| - 1]), names[|names| - 1];
      if last in init then init else init + [last]
  }

  function DsRecords(records: seq<Record>, owner: string): seq<Ds> {
    if records == [] then []
    else
      var init, last := DsRecords(records[..|records| - 1], owner), records[|records| - 1];
      if last.kind == "DS" && Lower(last.name) == owner && last.ds.Some? then init + [last.ds.value] else init
  }

  function Under(glue: map<string, seq<string>>, name: string): seq<string> {
    if name in glue then glue[name] else []
  }

  function Glue(records: seq<Record>): map<string, seq<string>> {
    if records == [] then map[]
    else
      var init, last := Glue(records[..|records| - 1]), records[|records| - 1];
      if last.kind != "A" && last.kind != "AAAA" then init
      else init[Lower(last.name) := Under(init, Lower(last.name)) + [last.data]]
  }

  method GlueFrom(additional: seq<Record>) returns (out: map<string, seq<string>>)
    ensures out == Glue(additional)
  {
    out := map[];
    for i := 0 to |additional|
      invariant out == Glue(additional[..i])
    {
      var r := additional[i];
      assert additional[..i + 1][..i] == additional[..i];
      if r.kind != "A" && r.kind != "AAAA" { continue; }
      out := out[Lower(r.name) := Under(out, Lower(r.name)) + [r.data]];
    }
    assert additional[..|additional|] == additional;
  }

  /** Glue first, then resolved; a nameserver without any address adds nothing. */
  function Addresses(setup: Setup, glue: map<string, seq<string>>, ns: string): seq<string> {
    var addrs := Under(glue, ns);
    if addrs != [] then addrs
    else if setup.lookup(ns).Some? then setup.lookup(ns).value
    else []
  }

  function NextServers(setup: Setup, glue: map<string, seq<string>>, nameservers: seq<string>): seq<string> {
    if nameservers == [] then []
    else
      NextServers(setup, glue, nameservers[..|nameservers| - 1]) +
      Addresses(setup, glue, nameservers[|nameservers| - 1])
  }

  method NextHop(setup: Setup, glue: map<string, seq<string>>, nameservers: seq<string>) returns (next: seq<string>)
    ensures next == NextServers(setup, glue, nameservers)
  {
    next := [];
    for i := 0 to |nameservers|
      invariant next == NextServers(setup, glue, nameservers[..i])
    {
      assert nameservers[..i + 1][..i] == nameservers[..i];
      var addrs := Under(glue, nameservers[i]);
      if |addrs| == 0 {
        var found := setup.lookup(nameservers[i]);
        if found.Some? { addrs := addrs + found.value; }
      }
      next := next + addrs;
    }
    assert nameservers[..|nameservers|] == nameservers;
  }

  /* --------------------------------------------------- asking one level */

  datatype Asked = Asked(reply: Option<Message>, from: string, lastError: string)

  /** The first of the allowed servers that answers, starting with the i-th. */
  function Ask(setup: Setup, target: string, servers: seq<string>, attempts: nat, i: nat, lastError: string): Asked
    decreases |servers| - i
  {
    if i >= |servers| || i >= attempts then Asked(None, "", lastError)
    else
      match setup.query(target, "NS", servers[i])
      case Answered(m) => Asked(Some(m), servers[i], lastError)
      case Failed(reason) => Ask(setup, target, servers, attempts, i + 1, servers[i] + ": " + reason)
  }

  method AskLevel(setup: Setup, target: string, servers: seq<string>, attempts: nat, error: string)
    returns (answered: Option<Message>, from: string, lastError: string)
    ensures Asked(answered, from, lastError) == Ask(setup, target, servers, attempts, 0, error)
  {
    answered, from, lastError := None, "", error;
    var tried := 0;
    for i := 0 to |servers|
      invariant tried == i <= attempts && answered == None && from == ""
      invariant Ask(setup, target, servers, attempts, i, lastError) == Ask(setup, target, servers, attempts, 0, error)
    {
      if tried >= attempts { break; }
      tried := tried + 1;
      match setup.query(target, "NS", servers[i]) {
        case Answered(m) =>
          answered, from := Some(m), servers[i];
          break;
        case Failed(reason) =>
          lastError := servers[i] + ": " + reason;
      }
    }
  }

  /* ----------------------------------------------------------- the walk */

  datatype Level = Level(servers: seq<string>, current: string, path: seq<string>, lastError: string)

  datatype Step = Done(outcome: Outcome) | Descend(level: Level)

  function Nothing(target: string, status: Status, parents: seq<string>, path: seq<string>,
                   error: Option<string>): Outcome {
    Outcome(target, status, [], map[], [], parents, path, error)
  }

  function Tried(servers: seq<string>, attempts: nat): seq<string> {
    servers[..if |servers| < attempts then |servers| else attempts]
  }

  function ReadDs(setup: Setup, target: string, from: string): seq<Ds> {
    match setup.query(target, "DS", from)
    case Answered(m) => DsRecords(m.answer, target)
    case Failed(_) => []
  }

  predicate OffPath(target: string, owner: string, current: string) {
    !IsSuffix(target, owner) || (owner != target && |owner| <= |current| && current != ".")
  }

  /** What a level's answer means. */
  function Read(setup: Setup, target: string, attempts: nat, level: Level, m: Message, from: string,
                lastError: string): Step {
    var path, parents := level.path, Tried(level.servers, attempts);
    var referral := NsRecords(m.authority);
    if m.rcode == 3 then Done(Nothing(target, NotDelegated, [from], path, None))
    else if m.aa && exists r :: r in m.answer && IsNs(r, target) then
      Done(Outcome(target, if level.current == target then Delegated else ServedByParent, NsNames(m.answer, target),
                   Glue(m.additional), if level.current == target then [] else ReadDs(setup, target, from),
                   parents, path, None))
    else if referral == [] then
      Done(Nothing(target, NotDelegated, [from], path, Some(from + " returned " + m.rcodeName + " with no referral")))
    else
      var owner := Lower(referral[0].name);
      if OffPath(target, owner, level.current) then
        Done(Nothing(target, NotDelegated, [from], path,
                     Some(from + " referred to " + owner + ", which is not on the path to " + target)))
      else
        var nameservers, glue := Distinct(NsNames(referral, owner)), Glue(m.additional);
        if owner == target then
          var ds := DsRecords(m.authority, target);
          Done(Outcome(target, Delegated, nameservers, glue, if ds != [] then ds else ReadDs(setup, target, from),
                       parents, path, None))
        else
          var next := NextServers(setup, glue, nameservers);
          if next == [] then
            Done(Nothing(target, Unreachable, [from], path, Some("no address for the nameservers of " + owner)))
          else Descend(Level(next, owner, path + [owner], lastError))
  }

  function Visit(setup: Setup, target: string, attempts: nat, level: Level): Step {
    var asked := Ask(setup, target, level.servers, attempts, 0, level.lastError);
    if asked.reply.None? then
      Done(Nothing(target, Unreachable, [], level.path,
                   Some(if asked.lastError != "" then asked.lastError else "no server answered")))
    else Read(setup, target, attempts, level, asked.reply.value, asked.from, asked.lastError)
  }

  const TOO_DEEP := "delegation chain too deep"

  function Walk(setup: Setup, target: string, attempts: nat, level: Level, depth: nat): Outcome
    decreases depth
  {
    if depth == 0 then Nothing(target, Unreachable, [], level.path, Some(TOO_DEEP))
    else
      match Visit(setup, target, attempts, level)
      case Done(outcome) => outcome
      case Descend(next) => Walk(setup, target, attempts, next, depth - 1)
  }

  function TargetOf(zone: string): string {
    Lower(if EndsWith(zone, ".") then zone else zone + ".")
  }

  function Attempts(setup: Setup): nat {
    if setup.attemptsPerLevel.Some? then setup.attemptsPerLevel.value else 4
  }

  function MaxDepth(setup: Setup, target: string): nat {
    if setup.maxDepth.Some? then setup.maxDepth.value else |Split(target, '.')| + 1
  }

  function Located(zone: string, setup: Setup): Outcome {
    var target := TargetOf(zone);
    Walk(setup, target, Attempts(setup), Level(setup.rootServers, ".", ["."], ""), MaxDepth(setup, target))
  }

  /** One round of the loop. */
  method VisitLevel(setup: Setup, target: string, attempts: nat, level: Level) returns (step: Step)
    ensures step == Visit(setup, target, attempts, level)
  {
    hide Ask, NsRecords, NsNames, Distinct, DsRecords, Glue, NextServers, Lower, IsSuffix, IsNs, Tried, ReadDs, Under;
    var servers, current, path := level.servers, level.current, level.path;
    var answered, from, lastError := AskLevel(setup, target, servers, attempts, level.lastError);
    if answered.None? {
      return Done(Nothing(target, Unreachable, [], path,
                          Some(if lastError != "" then lastError else "no server answered")));
    }
    var m := answered.value;
    if m.rcode == 3 {
      return Done(Nothing(target, NotDelegated, [from], path, None));
    }
    var parentServers := Tried(servers, attempts);
    if m.aa && exists r :: r in m.answer && IsNs(r, target) {
      var apexGlue := GlueFrom(m.additional);
      return Done(Outcome(target, if current == target then Delegated else ServedByParent, NsNames(m.answer, target),
                          apexGlue,
                          if current == target then [] else ReadDs(setup, target, from), parentServers, path, None));
    }
    var referralNs := NsRecords(m.authority);
    if |referralNs| == 0 {
      return Done(Nothing(target, NotDelegated, [from], path,
                          Some(from + " returned " + m.rcodeName + " with no referral")));
    }
    var owner := Lower(referralNs[0].name);
    if !IsSuffix(target, owner) || (owner != target && |owner| <= |current| && current != ".") {
      return Done(Nothing(target, NotDelegated, [from], path,
                          Some(from + " referred to " + owner + ", which is not on the path to " + target)));
    }
    var nameservers := Distinct(NsNames(referralNs, owner));
    var glue := GlueFrom(m.additional);
    if owner == target {
      var ds := DsRecords(m.authority, target);
      return Done(Outcome(target, Delegated, nameservers, glue, if |ds| > 0 then ds else ReadDs(setup, target, from),
                          parentServers, path, None));
    }
    var next := NextHop(setup, glue, nameservers);
    if |next| == 0 {
      return Done(Nothing(target, Unreachable, [from], path, Some("no address for the nameservers of " + owner)));
    }
    return Descend(Level(next, owner, path + [owner], lastError));
  }

  method FindDelegation(zone: string, setup: Setup) returns (r: Outcome)
    ensures r == Located(zone, setup)
  {
    hide Visit, MaxDepth, Attempts, TargetOf;
    var target := TargetOf(zone);
    var attempts := Attempts(setup);
    var maxDepth := MaxDepth(setup, target);
    var level := Level(setup.rootServers, ".", ["."], "");
    for depth := 0 to maxDepth
      invariant Walk(setup, target, attempts, level, maxDepth - depth) == Located(zone, setup)
    {
      var step := VisitLevel(setup, target, attempts, level);
      match step {
        case Done(outcome) => return outcome;
        case Descend(next) => level := next;
      }
    }
    r := Nothing(target, Unreachable, [], level.path, Some(TOO_DEEP));
  }
}
