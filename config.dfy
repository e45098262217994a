/**
 * The printer configuration: an ordered mapping from section names to sections, where
 * each section is a JSON object of settings.
 *
 * The editor keeps the configuration in a case-insensitive dictionary that remembers
 * insertion order; it is modelled as a sequence of (name, section) entries whose names
 * are unique up to ASCII case.
 */
module Config {
  import opened Wrappers
  import opened Text

  /** The JSON scalars a section setting can hold. */
  datatype Value = Null | Bool(b: bool) | Str(s: string) | Number(n: int)

  /** Python truthiness of a JSON scalar: `None`, `False`, `""` and `0` are false. */
  predicate Truthy(v: Value) {
    match v
    case Null => false
    case Bool(b) => b
    case Str(s) => s != ""
    case Number(n) => n != 0
  }

  /** One section: the settings `prefix`, `suffix`, `print`, `printer`, `show` and `active`. */
  type Section = map<string, Value>

  /** `section.get(key, default)`. */
  function Get(sec: Section, key: string, default: Value): (r: Value)
    ensures key in sec ==> r == sec[key]
    ensures key !in sec ==> r == default
  {
    if key in sec then sec[key] else default
  }

  type Entry = (string, Section)

  /** The whole configuration, in priority order. */
  type Config = seq<Entry>

  /** `list(config.keys())`. */
  function Keys(cfg: Config): (r: seq<string>)
    ensures |r| == |cfg|
    ensures forall i :: 0 <= i < |cfg| ==> r[i] == cfg[i].0
  {
    if cfg == [] then [] else [cfg[0].0] + Keys(cfg[1..])
  }

  /** Two names denote the same section when they agree ignoring case. */
  predicate SameName(a: string, b: string) {
    Lower(a) == Lower(b)
  }

  /** No two sections share a name up to case. */
  predicate UniqueKeys(cfg: Config) {
    forall i, j :: 0 <= i < j < |cfg| ==> !SameName(cfg[i].0, cfg[j].0)
  }

  /** The position of the section called `name` (ignoring case), if any. */
  function IndexOf(cfg: Config, name: string): (r: Option<nat>)
    ensures r.Some? ==> r.value < |cfg| && SameName(cfg[r.value].0, name)
    ensures r.Some? ==> forall j :: 0 <= j < r.value ==> !SameName(cfg[j].0, name)
    ensures r.None? <==> forall j :: 0 <= j < |cfg| ==> !SameName(cfg[j].0, name)
  {
    if cfg == [] then None
    else if SameName(cfg[0].0, name) then Some(0)
    else match IndexOf(cfg[1..], name)
      case None => None
      case Some(i) => Some(i + 1)
  }

  /** `name in config`. */
  predicate HasKey(cfg: Config, name: string) {
    IndexOf(cfg, name).Some?
  }

  /** `config[name]`, or `None` where Python raises `KeyError`. */
  function Lookup(cfg: Config, name: string): (r: Option<Section>)
    ensures r.Some? <==> HasKey(cfg, name)
  {
    match IndexOf(cfg, name)
    case None => None
    case Some(i) => Some(cfg[i].1)
  }

  /** `config[name] = sec`: an existing section keeps its place, a new one goes last. */
  function SetItem(cfg: Config, name: string, sec: Section): Config {
    match IndexOf(cfg, name)
    case None => cfg + [(name, sec)]
    case Some(i) => cfg[i := (name, sec)]
  }

  /** In a configuration with unique names, every name is found at its own position. */
  lemma IndexOfUnique(cfg: Config, i: nat)
    requires UniqueKeys(cfg) && i < |cfg|
    ensures IndexOf(cfg, cfg[i].0) == Some(i)
  {
  }

  /** Storing a section makes it the one found under that name, and keeps names unique. */
  lemma SetItemStores(cfg: Config, name: string, sec: Section)
    requires UniqueKeys(cfg)
    ensures UniqueKeys(SetItem(cfg, name, sec))
    ensures Lookup(SetItem(cfg, name, sec), name) == Some(sec)
    ensures Keys(SetItem(cfg, name, sec)) == if HasKey(cfg, name) then Keys(cfg)[IndexOf(cfg, name).value := name] else Keys(cfg) + [name]
  {
    match IndexOf(cfg, name)
    case None => AppendStores(cfg, name, sec);
    case Some(i) => ReplaceStores(cfg, i, name, sec);
  }

  lemma AppendStores(cfg: Config, name: string, sec: Section)
    requires UniqueKeys(cfg) && !HasKey(cfg, name)
    ensures UniqueKeys(cfg + [(name, sec)])
    ensures Lookup(cfg + [(name, sec)], name) == Some(sec)
    ensures Keys(cfg + [(name, sec)]) == Keys(cfg) + [name]
  {
    var r := cfg + [(name, sec)];
    IndexOfUnique(r, |cfg|);
  }

  lemma ReplaceStores(cfg: Config, i: nat, name: string, sec: Section)
    requires UniqueKeys(cfg) && i < |cfg| && SameName(cfg[i].0, name)
    ensures UniqueKeys(cfg[i := (name, sec)])
    ensures Lookup(cfg[i := (name, sec)], name) == Some(sec)
    ensures Keys(cfg[i := (name, sec)]) == Keys(cfg)[i := name]
  {
    var r := cfg[i := (name, sec)];
    forall j, k | 0 <= j < k < |r| ensures !SameName(r[j].0, r[k].0) {
      assert SameName(r[i].0, cfg[i].0);
    }
    IndexOfUnique(r, i);
  }

  /** Storing under one name leaves every other name's section alone. */
  lemma SetItemKeepsOthers(cfg: Config, name: string, sec: Section, other: string)
    requires UniqueKeys(cfg) && !SameName(name, other)
    ensures Lookup(SetItem(cfg, name, sec), other) == Lookup(cfg, other)
  {
    var r := SetItem(cfg, name, sec);
    if IndexOf(cfg, name).Some? {
      assert !SameName(r[IndexOf(cfg, name).value].0, other);
    } else if IndexOf(cfg, other).None? {
      assert !SameName(r[|cfg|].0, other);
    }
    if IndexOf(cfg, other).Some? {
      assert r[IndexOf(cfg, other).value] == cfg[IndexOf(cfg, other).value];
    }
  }
}
