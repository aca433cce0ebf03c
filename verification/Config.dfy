/** Reading the configuration from the environment: src/config.rs. */
module Config {
  import opened Results
  import opened Protocol

  // ---------- the bit set of request types ----------

  const BITSET_SIZE := 256

  class RequestTypeSet {
    const bits: array<bool>

    ghost predicate Valid()
      reads this, bits
    {
      bits.Length == BITSET_SIZE && forall i :: 23 <= i < BITSET_SIZE ==> !bits[i]
    }

    ghost function Contents(): set<RequestType>
      requires Valid()
      reads this, bits
    {
      set ty: RequestType | bits[Code(ty)]
    }

    constructor ()
      ensures Valid() && fresh(bits) && Contents() == {}
    {
      bits := new bool[BITSET_SIZE](_ => false);
    }

    method Insert(val: RequestType) returns (added: bool)
      requires Valid()
      modifies bits
      ensures Valid() && Contents() == old(Contents()) + {val}
      ensures added <==> val !in old(Contents())
    {
      var index := Code(val);
      added := !bits[index];
      if added {
        bits[index] := true;
      }
      forall ty: RequestType
        ensures ty in Contents() <==> ty in old(Contents()) || ty == val
      {
        CodeExact(ty, index);
        CodeExact(val, index);
      }
    }

    method Contains(val: RequestType) returns (found: bool)
      requires Valid()
      ensures found <==> val in Contents()
    {
      found := bits[Code(val)];
    }
  }

  datatype Config = Config(ignored: RequestTypeSet, workerCount: nat, handoffTimeout: nat)

  /** Config::should_ignore. */
  method ShouldIgnore(config: Config, ty: RequestType) returns (ignore: bool)
    requires config.ignored.Valid()
    ensures ignore <==> ty in config.ignored.Contents()
  {
    ignore := config.ignored.Contains(ty);
  }

  // ---------- databases ----------

  /** The databases by their names in the environment. */
  const OPS_BY_DATABASE: seq<(string, seq<RequestType>)> := [
    ("GROUP", [GETGRBYNAME, GETGRBYGID]),
    ("HOSTS", [GETHOSTBYADDR, GETHOSTBYADDRv6, GETHOSTBYNAME, GETHOSTBYNAMEv6, GETAI]),
    ("INITGROUPS", [INITGROUPS]),
    ("NETGROUP", [GETNETGRENT, INNETGR]),
    ("PASSWD", [GETPWBYNAME, GETPWBYUID]),
    ("SERVICES", [GETSERVBYNAME, GETSERVBYPORT])]

  /** The map built from the first n entries; a later entry of the same name would replace an earlier one. */
  function TypesOf(n: nat, database: string): Option<seq<RequestType>>
    requires n <= |OPS_BY_DATABASE|
  {
    if n == 0 then None
    else if OPS_BY_DATABASE[n - 1].0 == database then Some(OPS_BY_DATABASE[n - 1].1)
    else TypesOf(n - 1, database)
  }

  function Database(name: string): Option<seq<RequestType>> {
    TypesOf(|OPS_BY_DATABASE|, name)
  }

  /** The loop building the map from OPS_BY_DATABASE. */
  method BuildOpsMap() returns (ops: map<string, seq<RequestType>>)
    ensures forall name :: name in ops <==> Database(name).Some?
    ensures forall name :: name in ops ==> ops[name] == Database(name).value
  {
    ops := map[];
    for k := 0 to |OPS_BY_DATABASE|
      invariant forall name :: name in ops <==> TypesOf(k, name).Some?
      invariant forall name :: name in ops ==> ops[name] == TypesOf(k, name).value
    {
      ops := ops[OPS_BY_DATABASE[k].0 := OPS_BY_DATABASE[k].1];
    }
  }

  // ---------- one variable ----------

  type Var = (string, string)

  const IGNORE_PREFIX := "NSNCD_IGNORE_"
  const WORKER_COUNT := "NSNCD_WORKER_COUNT"
  const HANDOFF_TIMEOUT := "NSNCD_HANDOFF_TIMEOUT"

  datatype ConfigError = UnknownGroup | NotABool | NotACount | ZeroCount

  function ParseBool(s: string): Option<bool> {
    if s == "true" then Some(true) else if s == "false" then Some(false) else None
  }

  /** The request types one variable asks to ignore, or why it is an error. */
  function Effect(v: Var): Result<seq<RequestType>, ConfigError> {
    if !(IGNORE_PREFIX <= v.0) then Ok([])
    else
      match Database(v.0[|IGNORE_PREFIX|..])
      case None => Err(UnknownGroup)
      case Some(types) =>
        match ParseBool(v.1)
        case None => Err(NotABool)
        case Some(value) => Ok(if value then types else [])
  }

  /** What `env_positive_usize` makes of a value; `parse` is Rust's usize parser. */
  function Reading(parse: string -> Option<nat>, s: string): Result<nat, ConfigError> {
    match parse(s)
    case None => Err(NotACount)
    case Some(n) => if n > 0 then Ok(n) else Err(ZeroCount)
  }

  // ---------- the whole environment ----------

  predicate EffectsOk(vars: seq<Var>) {
    forall v :: v in vars ==> Effect(v).Ok?
  }

  /** The request types of every database set to true. */
  predicate IsIgnored(vars: seq<Var>, ty: RequestType) {
    exists v :: v in vars && Effect(v).Ok? && ty in Effect(v).value
  }

  ghost function IgnoredTypes(vars: seq<Var>): set<RequestType> {
    set ty: RequestType | IsIgnored(vars, ty)
  }

  /** `env::var` finds the first entry of a name. */
  function Lookup(vars: seq<Var>, name: string): Option<string> {
    if vars == [] then None
    else if vars[0].0 == name then Some(vars[0].1)
    else Lookup(vars[1..], name)
  }

  function Positive(vars: seq<Var>, parse: string -> Option<nat>, name: string, default: nat)
    : Result<nat, ConfigError>
  {
    match Lookup(vars, name)
    case None => Ok(default)
    case Some(s) => Reading(parse, s)
  }

  /** The configuration as values; the particular error is not part of it. */
  datatype Settings = Settings(ignored: set<RequestType>, workerCount: nat, handoffTimeout: nat)

  ghost function Settle(vars: seq<Var>, parse: string -> Option<nat>): Option<Settings> {
    var workers := Positive(vars, parse, WORKER_COUNT, 8);
    var timeout := Positive(vars, parse, HANDOFF_TIMEOUT, 3);
    if EffectsOk(vars) && workers.Ok? && timeout.Ok?
    then Some(Settings(IgnoredTypes(vars), workers.value, timeout.value))
    else None
  }

  /** The error of the first ignore variable that has one. */
  function FirstError(vars: seq<Var>): Option<ConfigError> {
    if vars == [] then None
    else if Effect(vars[0]).Err? then Some(Effect(vars[0]).error)
    else FirstError(vars[1..])
  }

  /** `env_positive_usize`. */
  method EnvPositiveUsize(vars: seq<Var>, parse: string -> Option<nat>, name: string, default: nat)
    returns (r: Result<nat, ConfigError>)
    ensures r == Positive(vars, parse, name, default)
  {
    var s := Lookup(vars, name);
    if s.None? { return Ok(default); }
    var val := parse(s.value);
    if val.None? { return Err(NotACount); }
    if val.value > 0 { r := Ok(val.value); } else { r := Err(ZeroCount); }
  }

  /** The inner loop over one database's types. */
  method InsertAll(ignored: RequestTypeSet, types: seq<RequestType>)
    requires ignored.Valid()
    modifies ignored.bits
    ensures ignored.Valid()
    ensures forall ty :: ty in ignored.Contents() <==> ty in old(ignored.Contents()) || ty in types
  {
    for k := 0 to |types|
      invariant ignored.Valid()
      invariant forall ty :: ty in ignored.Contents() <==> ty in old(ignored.Contents()) || ty in types[..k]
    {
      var added := ignored.Insert(types[k]);
      assert types[..k + 1] == types[..k] + [types[k]];
    }
    assert types[..|types|] == types;
  }

  /** `Config::from_env`: stops at the first variable that is an error. */
  method FromEnv(vars: seq<Var>, parse: string -> Option<nat>) returns (r: Result<Config, ConfigError>)
    ensures r.Ok? <==> Settle(vars, parse).Some?
    ensures r.Err? && !EffectsOk(vars) ==> FirstError(vars) == Some(r.error)
    ensures r.Err? && EffectsOk(vars) ==>
      r.error == (if Positive(vars, parse, WORKER_COUNT, 8).Err? then Positive(vars, parse, WORKER_COUNT, 8).error
                  else Positive(vars, parse, HANDOFF_TIMEOUT, 3).error)
    ensures r.Ok? ==>
      && r.value.ignored.Valid() && fresh(r.value.ignored) && fresh(r.value.ignored.bits)
      && Settle(vars, parse) == Some(Settings(r.value.ignored.Contents(), r.value.workerCount, r.value.handoffTimeout))
  {
    var ops := BuildOpsMap();
    var ignored := new RequestTypeSet();
    for k := 0 to |vars|
      invariant ignored.Valid() && fresh(ignored) && fresh(ignored.bits)
      invariant EffectsOk(vars[..k])
      invariant forall ty :: ty in ignored.Contents() <==> IsIgnored(vars[..k], ty)
    {
      var (key, text) := vars[k];
      assert vars[..k + 1] == vars[..k] + [vars[k]];
      IsIgnoredSnoc(vars[..k], vars[k]);
      if IGNORE_PREFIX <= key {
        var database := key[|IGNORE_PREFIX|..];
        if database !in ops {
          FirstErrorAt(vars, k);
          return Err(UnknownGroup);
        }
        var value := ParseBool(text);
        if value.None? {
          FirstErrorAt(vars, k);
          return Err(NotABool);
        }
        if value.value {
          InsertAll(ignored, ops[database]);
        }
      }
    }
    assert vars[..|vars|] == vars;
    assert ignored.Contents() == IgnoredTypes(vars);
    var workerCount := EnvPositiveUsize(vars, parse, WORKER_COUNT, 8);
    if workerCount.Err? { return Err(workerCount.error); }
    var handoffTimeout := EnvPositiveUsize(vars, parse, HANDOFF_TIMEOUT, 3);
    if handoffTimeout.Err? { return Err(handoffTimeout.error); }
    r := Ok(Config(ignored, workerCount.value, handoffTimeout.value));
  }

  lemma {:induction false} FirstErrorAt(vars: seq<Var>, k: nat)
    requires k < |vars| && EffectsOk(vars[..k]) && Effect(vars[k]).Err?
    ensures FirstError(vars) == Some(Effect(vars[k]).error) && !EffectsOk(vars)
  {
    if k > 0 {
      assert vars[0] in vars[..k];
      assert vars[1..][..k - 1] == vars[..k][1..];
      FirstErrorAt(vars[1..], k - 1);
    }
  }

  lemma IsIgnoredSnoc(vars: seq<Var>, v: Var)
    ensures EffectsOk(vars + [v]) <==> EffectsOk(vars) && Effect(v).Ok?
    ensures forall ty :: IsIgnored(vars + [v], ty) <==> IsIgnored(vars, ty) || (Effect(v).Ok? && ty in Effect(v).value)
  {
    assert forall u :: u in vars + [v] <==> u in vars || u == v;
  }
}
