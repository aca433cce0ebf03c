/** What the environment means to `Config::from_env`, in the names and numbers that its documentation gives. */
module ConfigMeaning {
  import opened Results
  import opened Protocol
  import opened Config

  // ---------- the ignore variables ----------

  /** The variable that turns off requests of this type, if there is one. */
  function Switch(ty: RequestType): Option<string> {
    match ty
    case GETGRBYNAME | GETGRBYGID => Some("NSNCD_IGNORE_GROUP")
    case GETHOSTBYADDR | GETHOSTBYADDRv6 | GETHOSTBYNAME | GETHOSTBYNAMEv6 | GETAI => Some("NSNCD_IGNORE_HOSTS")
    case INITGROUPS => Some("NSNCD_IGNORE_INITGROUPS")
    case GETNETGRENT | INNETGR => Some("NSNCD_IGNORE_NETGROUP")
    case GETPWBYNAME | GETPWBYUID => Some("NSNCD_IGNORE_PASSWD")
    case GETSERVBYNAME | GETSERVBYPORT => Some("NSNCD_IGNORE_SERVICES")
    case _ => None
  }

  predicate TurnedOff(vars: seq<Var>, ty: RequestType) {
    Switch(ty).Some? && (Switch(ty).value, "true") in vars
  }

  predicate KnownName(name: string) {
    || name == "NSNCD_IGNORE_GROUP" || name == "NSNCD_IGNORE_HOSTS" || name == "NSNCD_IGNORE_INITGROUPS"
    || name == "NSNCD_IGNORE_NETGROUP" || name == "NSNCD_IGNORE_PASSWD" || name == "NSNCD_IGNORE_SERVICES"
  }

  /** Not an ignore variable, or one that exists with a value that is a boolean. */
  predicate WellFormed(v: Var) {
    "NSNCD_IGNORE_" <= v.0 ==> KnownName(v.0) && (v.1 == "true" || v.1 == "false")
  }

  lemma Databases(database: string)
    ensures Database(database) ==
      if database == "GROUP" then Some([GETGRBYNAME, GETGRBYGID])
      else if database == "HOSTS" then
        Some([GETHOSTBYADDR, GETHOSTBYADDRv6, GETHOSTBYNAME, GETHOSTBYNAMEv6, GETAI])
      else if database == "INITGROUPS" then Some([INITGROUPS])
      else if database == "NETGROUP" then Some([GETNETGRENT, INNETGR])
      else if database == "PASSWD" then Some([GETPWBYNAME, GETPWBYUID])
      else if database == "SERVICES" then Some([GETSERVBYNAME, GETSERVBYPORT])
      else None
  {
    assert TypesOf(1, database) == if database == "GROUP" then Some([GETGRBYNAME, GETGRBYGID]) else None;
    assert TypesOf(3, database) ==
      if database == "INITGROUPS" then Some([INITGROUPS])
      else if database == "HOSTS" then
        Some([GETHOSTBYADDR, GETHOSTBYADDRv6, GETHOSTBYNAME, GETHOSTBYNAMEv6, GETAI])
      else TypesOf(1, database);
    assert TypesOf(5, database) ==
      if database == "PASSWD" then Some([GETPWBYNAME, GETPWBYUID])
      else if database == "NETGROUP" then Some([GETNETGRENT, INNETGR])
      else TypesOf(3, database);
  }

  lemma Names(name: string)
    requires "NSNCD_IGNORE_" <= name
    ensures
      var database := name[13..];
      && (database == "GROUP" <==> name == "NSNCD_IGNORE_GROUP")
      && (database == "HOSTS" <==> name == "NSNCD_IGNORE_HOSTS")
      && (database == "INITGROUPS" <==> name == "NSNCD_IGNORE_INITGROUPS")
      && (database == "NETGROUP" <==> name == "NSNCD_IGNORE_NETGROUP")
      && (database == "PASSWD" <==> name == "NSNCD_IGNORE_PASSWD")
      && (database == "SERVICES" <==> name == "NSNCD_IGNORE_SERVICES")
  {
    assert name == "NSNCD_IGNORE_" + name[13..];
    assert "NSNCD_IGNORE_GROUP" == "NSNCD_IGNORE_" + "GROUP";
    assert "NSNCD_IGNORE_HOSTS" == "NSNCD_IGNORE_" + "HOSTS";
    assert "NSNCD_IGNORE_INITGROUPS" == "NSNCD_IGNORE_" + "INITGROUPS";
    assert "NSNCD_IGNORE_NETGROUP" == "NSNCD_IGNORE_" + "NETGROUP";
    assert "NSNCD_IGNORE_PASSWD" == "NSNCD_IGNORE_" + "PASSWD";
    assert "NSNCD_IGNORE_SERVICES" == "NSNCD_IGNORE_" + "SERVICES";
  }

  /** Of one variable: whether it is an error, and of which kind. */
  lemma EffectErrors(v: Var)
    ensures Effect(v).Ok? <==> WellFormed(v)
    ensures Effect(v).Err? ==> Effect(v).error == if KnownName(v.0) then NotABool else UnknownGroup
  {
    if "NSNCD_IGNORE_" <= v.0 {
      Names(v.0);
      Databases(v.0[13..]);
    } else {
      PrefixOfNames(v.0);
    }
  }

  /** Of one variable: which types it turns off. */
  lemma EffectTypes(v: Var, ty: RequestType)
    requires Effect(v).Ok?
    ensures ty in Effect(v).value <==> Switch(ty) == Some(v.0) && v.1 == "true"
  {
    if "NSNCD_IGNORE_" <= v.0 {
      Names(v.0);
      Databases(v.0[13..]);
      SwitchOf(v.0, Database(v.0[13..]).value, ty);
    } else {
      PrefixOfNames(v.0);
      assert Switch(ty).Some? ==> KnownName(Switch(ty).value);
    }
  }

  lemma SwitchOf(name: string, types: seq<RequestType>, ty: RequestType)
    requires
      || (name == "NSNCD_IGNORE_GROUP" && types == [GETGRBYNAME, GETGRBYGID])
      || (name == "NSNCD_IGNORE_HOSTS" &&
          types == [GETHOSTBYADDR, GETHOSTBYADDRv6, GETHOSTBYNAME, GETHOSTBYNAMEv6, GETAI])
      || (name == "NSNCD_IGNORE_INITGROUPS" && types == [INITGROUPS])
      || (name == "NSNCD_IGNORE_NETGROUP" && types == [GETNETGRENT, INNETGR])
      || (name == "NSNCD_IGNORE_PASSWD" && types == [GETPWBYNAME, GETPWBYUID])
      || (name == "NSNCD_IGNORE_SERVICES" && types == [GETSERVBYNAME, GETSERVBYPORT])
    ensures ty in types <==> Switch(ty) == Some(name)
  {
    assert Switch(ty) == Some(name) ==> Switch(ty).value[13] == name[13];
  }

  lemma PrefixOfNames(name: string)
    ensures KnownName(name) ==> "NSNCD_IGNORE_" <= name
  {
  }

  lemma {:induction false} IgnoredMeaning(vars: seq<Var>, ty: RequestType)
    requires forall v :: v in vars ==> WellFormed(v)
    ensures IsIgnored(vars, ty) <==> TurnedOff(vars, ty)
  {
    if vars != [] {
      var front, last := vars[..|vars| - 1], vars[|vars| - 1];
      assert vars == front + [last];
      IgnoredMeaning(front, ty);
      IsIgnoredSnoc(front, last);
      EffectErrors(last);
      EffectTypes(last, ty);
    }
  }

  // ---------- the counts ----------

  /** The first entry of a name. */
  ghost predicate FirstEntry(vars: seq<Var>, name: string, k: nat) {
    k < |vars| && vars[k].0 == name && forall j :: 0 <= j < k ==> vars[j].0 != name
  }

  /** A count that is not set has its default; otherwise its first entry reads as a positive number. */
  ghost predicate CountIs(vars: seq<Var>, parse: string -> Option<nat>, name: string, default: nat, n: nat) {
    if forall v :: v in vars ==> v.0 != name then n == default
    else n > 0 && exists k: nat :: FirstEntry(vars, name, k) && parse(vars[k].1) == Some(n)
  }

  lemma {:induction false} LookupMeaning(vars: seq<Var>, name: string) returns (k: nat)
    ensures Lookup(vars, name).None? <==> forall v :: v in vars ==> v.0 != name
    ensures Lookup(vars, name).Some? ==> FirstEntry(vars, name, k) && Lookup(vars, name) == Some(vars[k].1)
  {
    k := 0;
    if vars != [] && vars[0].0 != name {
      var j := LookupMeaning(vars[1..], name);
      k := j + 1;
      assert forall v :: v in vars <==> v == vars[0] || v in vars[1..];
    }
  }

  lemma FirstEntryOnce(vars: seq<Var>, name: string, j: nat, k: nat)
    requires FirstEntry(vars, name, j) && FirstEntry(vars, name, k)
    ensures j == k
  {
  }

  lemma CountMeaning(vars: seq<Var>, parse: string -> Option<nat>, name: string, default: nat, n: nat)
    ensures Positive(vars, parse, name, default) == Ok(n) <==> CountIs(vars, parse, name, default, n)
  {
    var k := LookupMeaning(vars, name);
    if Lookup(vars, name).Some? {
      assert vars[k] in vars;
      if CountIs(vars, parse, name, default, n) {
        var j: nat :| FirstEntry(vars, name, j) && parse(vars[j].1) == Some(n);
        FirstEntryOnce(vars, name, j, k);
      }
    }
  }

  /** An error of a count: its first entry is not a number, or is zero. */
  lemma CountErrorMeaning(vars: seq<Var>, parse: string -> Option<nat>, name: string, default: nat) returns (k: nat)
    requires Positive(vars, parse, name, default).Err?
    ensures FirstEntry(vars, name, k)
    ensures match Positive(vars, parse, name, default).error
            case NotACount => parse(vars[k].1) == None
            case ZeroCount => parse(vars[k].1) == Some(0)
            case _ => false
  {
    k := LookupMeaning(vars, name);
  }

  // ---------- the whole environment ----------

  /** Exactly which environments give a configuration, and which one. */
  lemma SettleMeaning(vars: seq<Var>, parse: string -> Option<nat>, settings: Settings)
    ensures Settle(vars, parse) == Some(settings)
       <==> && (forall v :: v in vars ==> WellFormed(v))
            && (forall ty :: ty in settings.ignored <==> TurnedOff(vars, ty))
            && CountIs(vars, parse, "NSNCD_WORKER_COUNT", 8, settings.workerCount)
            && CountIs(vars, parse, "NSNCD_HANDOFF_TIMEOUT", 3, settings.handoffTimeout)
  {
    EffectsMeaning(vars);
    CountMeaning(vars, parse, "NSNCD_WORKER_COUNT", 8, settings.workerCount);
    CountMeaning(vars, parse, "NSNCD_HANDOFF_TIMEOUT", 3, settings.handoffTimeout);
    if EffectsOk(vars) {
      IgnoredTypesMeaning(vars);
      assert settings.ignored == IgnoredTypes(vars)
        <==> forall ty :: ty in settings.ignored <==> ty in IgnoredTypes(vars);
    }
  }

  lemma EffectsMeaning(vars: seq<Var>)
    ensures EffectsOk(vars) <==> forall v :: v in vars ==> WellFormed(v)
  {
    forall v | v in vars
      ensures Effect(v).Ok? <==> WellFormed(v)
    {
      EffectErrors(v);
    }
  }

  lemma IgnoredTypesMeaning(vars: seq<Var>)
    requires EffectsOk(vars)
    ensures forall ty :: ty in IgnoredTypes(vars) <==> TurnedOff(vars, ty)
  {
    EffectsMeaning(vars);
    forall ty: RequestType
      ensures IsIgnored(vars, ty) <==> TurnedOff(vars, ty)
    {
      IgnoredMeaning(vars, ty);
    }
  }

  /** The first ignore variable that is not well-formed decides the error. */
  lemma {:induction false} FirstErrorMeaning(vars: seq<Var>) returns (k: nat)
    requires FirstError(vars).Some?
    ensures k < |vars| && !WellFormed(vars[k]) && forall j :: 0 <= j < k ==> WellFormed(vars[j])
    ensures FirstError(vars) == Some(if KnownName(vars[k].0) then NotABool else UnknownGroup)
  {
    EffectErrors(vars[0]);
    k := 0;
    if Effect(vars[0]).Ok? {
      var j := FirstErrorMeaning(vars[1..]);
      k := j + 1;
    }
  }
}
