/**
 * The editor operations that change which sections exist and in what order: inserting a
 * section at a chosen position, deleting a section, and moving a section.
 *
 * Each operation asks the user through the prompts of `Prompt`, and returns the new
 * configuration together with the answers it did not read.
 */
module Ordering {
  import opened Wrappers
  import opened Text
  import opened Config
  import opened Prompt

  // ----- positions -----

  /** `[str(n) for n in range(count)]`. */
  function Numerals(count: nat): (r: seq<string>)
    ensures |r| == count
    ensures forall i :: 0 <= i < count ==> r[i] == NatToString(i)
  {
    if count == 0 then [] else Numerals(count - 1) + [NatToString(count - 1)]
  }

  /** The answers the position prompt accepts for a configuration of `endPos` sections. */
  function PositionOptions(endPos: nat): seq<string> {
    ["start"] + Numerals(endPos + 1) + ["end", "cancel", "c"]
  }

  /** The two answers that abandon an operation. */
  predicate IsCancel(s: string) {
    s == "cancel" || s == "c"
  }

  /** The position answer as the rest of the operation reads it: "end" is the last position and
      "start" the first; anything else is kept. */
  function NormalizePosition(choice: string, endPos: nat): string {
    if choice == "end" then NatToString(endPos)
    else if choice == "start" then "0"
    else choice
  }

  const PositionQuestion := "Please choose where to add the section or choose cancel to cancel this action:"

  /** `get_insert_position(end_pos)`: the position prompt with default "end". */
  function GetInsertPosition(style: Style, endPos: nat, input: seq<string>): (r: Reply<string>)
    ensures r.Answer? ==> |r.rest| < |input|
  {
    match Choose(style, PositionQuestion, PositionOptions(endPos), "end", input)
    case Answer(c, rest) => Answer(NormalizePosition(c, endPos), rest)
    case Raise(f) => Raise(f)
  }

  /** The position answer is "cancel", "c", or the decimal form of a position from 0 to `endPos`. */
  lemma GetInsertPositionRange(style: Style, endPos: nat, input: seq<string>)
    ensures var r := GetInsertPosition(style, endPos, input);
      r.Answer? ==> (|r.rest| < |input| &&
        (IsCancel(r.value) || (ParseDecimal(r.value).Some? && ParseDecimal(r.value).value <= endPos)))
    ensures GetInsertPosition(style, endPos, input).Raise? ==> GetInsertPosition(style, endPos, input).failure == EndOfInput
  {
    var opts := PositionOptions(endPos);
    assert opts[0] == "start" && opts[|opts| - 3] == "end";
    ChosenIsAnOption(style, PositionQuestion, opts, "end", input);
    var c := Choose(style, PositionQuestion, opts, "end", input);
    if c.Answer? {
      var i :| 0 <= i < |opts| && opts[i] == c.value;
      if 1 <= i <= endPos + 1 {
        assert c.value == NatToString(i - 1);
        ParseNatToString(i - 1);
        assert c.value != "end" && c.value != "start" by {
          assert IsDigit(c.value[0]);
        }
      } else if i == 0 {
        ParseNatToString(0);
      } else if i == endPos + 2 {
        ParseNatToString(endPos);
      }
    }
  }

  /** No numeral equals a word ignoring case, since a numeral starts with a digit. */
  lemma NumeralsAreNotWords(endPos: nat, word: string)
    requires word != [] && !IsDigit(word[0]) && Lower(word) == word
    ensures forall j :: 1 <= j <= endPos + 1 ==> Lower(PositionOptions(endPos)[j]) != word
  {
    var opts := PositionOptions(endPos);
    forall j | 1 <= j <= endPos + 1 ensures Lower(opts[j]) != word {
      assert opts[j] == NatToString(j - 1);
      LowerDigits(opts[j]);
      assert IsDigit(opts[j][0]);
    }
  }

  /** A typed line that matches a position option selects the first such option. */
  lemma TypedPosition(style: Style, endPos: nat, line: string, rest: seq<string>, k: nat)
    requires Strip(line) != "" && FirstIgnoringCase(PositionOptions(endPos), Strip(line)) == Some(k)
    ensures GetInsertPosition(style, endPos, [line] + rest) == Answer(NormalizePosition(PositionOptions(endPos)[k], endPos), rest)
  {
    var opts := PositionOptions(endPos);
    assert opts[endPos + 2] == "end";
    assert opts[k] != "" by {
      if 1 <= k <= endPos + 1 {
        assert opts[k] == NatToString(k - 1);
      }
    }
    TypedAnswerTakesOption(style, PositionQuestion, opts, "end", line, rest, k);
  }

  /** The numeral for `n` is the first position option equal to it ignoring case. */
  lemma NumeralFoundAt(endPos: nat, n: nat)
    requires n <= endPos
    ensures FirstIgnoringCase(PositionOptions(endPos), NatToString(n)) == Some(n + 1)
  {
    var opts := PositionOptions(endPos);
    var s := NatToString(n);
    assert opts[n + 1] == s;
    LowerDigits(s);
    forall j | 0 <= j < n + 1 ensures Lower(opts[j]) != Lower(s) {
      if j == 0 {
        assert Lower(opts[0])[0] == 's' && IsDigit(s[0]);
      } else {
        assert opts[j] == NatToString(j - 1);
        LowerDigits(opts[j]);
        if opts[j] == s {
          NatToStringInjective(j - 1, n);
        }
      }
    }
    FirstIgnoringCaseAt(opts, s, n + 1);
  }

  /** Every numbered position can be chosen by typing its number, and both editors read it alike. */
  lemma TypedPositionIsTaken(style: Style, endPos: nat, n: nat, rest: seq<string>)
    requires n <= endPos
    ensures GetInsertPosition(style, endPos, [NatToString(n)] + rest) == Answer(NatToString(n), rest)
  {
    var s := NatToString(n);
    StripDigits(s);
    NumeralFoundAt(endPos, n);
    TypedPosition(style, endPos, s, rest, n + 1);
    assert PositionOptions(endPos)[n + 1] == s;
    assert s != "end" && s != "start" by {
      assert IsDigit(s[0]);
    }
  }

  /** Stripping and lower-casing leave a numeral unchanged. */
  lemma StripDigits(s: string)
    requires AllDigits(s)
    ensures Strip(s) == s
  {
    assert s == [] || !IsSpace(s[0]);
    assert s == [] || !IsSpace(s[|s| - 1]);
  }

  lemma {:induction false} LowerDigits(s: string)
    requires AllDigits(s)
    ensures Lower(s) == s
  {
    if s != [] {
      LowerDigits(s[1..]);
    }
  }

  // ----- insertion -----

  /** `list.insert(k, x)` for an index within the list. */
  function InsertAt<T>(s: seq<T>, k: nat, x: T): (r: seq<T>)
    requires k <= |s|
    ensures |r| == |s| + 1 && r[k] == x
    ensures forall i :: 0 <= i < k ==> r[i] == s[i]
    ensures forall i :: k < i < |r| ==> r[i] == s[i - 1]
  {
    s[..k] + [x] + s[k..]
  }

  /** `{name: stored[name] for name in keys}`: the sections of `stored`, in the order `keys` gives. */
  function Rebuild(keys: seq<string>, stored: Config): (r: Config)
    requires forall i :: 0 <= i < |keys| ==> HasKey(stored, keys[i])
    ensures |r| == |keys|
    ensures forall i :: 0 <= i < |keys| ==> r[i] == (keys[i], Lookup(stored, keys[i]).value)
  {
    if keys == [] then [] else [(keys[0], Lookup(stored, keys[0]).value)] + Rebuild(keys[1..], stored)
  }

  /** The dictionary `insert_section` builds once the position `k` is known: the key list with `name`
      inserted at `k`, each key looked up in the configuration that already holds the new section. */
  function PlaceAt(cfg: Config, k: nat, name: string, sec: Section): Config
    requires UniqueKeys(cfg) && !HasKey(cfg, name) && k <= |cfg|
  {
    var stored := SetItem(cfg, name, sec);
    StoredHasAll(cfg, name, sec);
    Rebuild(InsertAt(Keys(cfg), k, name), stored)
  }

  /** After storing a new section every old name and the new one can be looked up. */
  lemma StoredHasAll(cfg: Config, name: string, sec: Section)
    requires UniqueKeys(cfg) && !HasKey(cfg, name)
    ensures SetItem(cfg, name, sec) == cfg + [(name, sec)]
    ensures forall i :: 0 <= i < |cfg| ==> Lookup(SetItem(cfg, name, sec), cfg[i].0) == Some(cfg[i].1)
    ensures Lookup(SetItem(cfg, name, sec), name) == Some(sec)
  {
    var stored := SetItem(cfg, name, sec);
    SetItemStores(cfg, name, sec);
    forall i | 0 <= i < |cfg| ensures Lookup(stored, cfg[i].0) == Some(cfg[i].1) {
      assert stored[i] == cfg[i];
      IndexOfUnique(stored, i);
    }
  }

  /** Rebuilding from the extended key list puts the new section at `k` and keeps the others in order. */
  lemma PlaceAtIsInsertAt(cfg: Config, k: nat, name: string, sec: Section)
    requires UniqueKeys(cfg) && !HasKey(cfg, name) && k <= |cfg|
    ensures PlaceAt(cfg, k, name, sec) == InsertAt(cfg, k, (name, sec))
    ensures UniqueKeys(PlaceAt(cfg, k, name, sec))
  {
    StoredHasAll(cfg, name, sec);
    var r := PlaceAt(cfg, k, name, sec);
    var want := InsertAt(cfg, k, (name, sec));
    forall i | 0 <= i < |want| ensures r[i] == want[i] {
      if i < k {
        assert r[i] == (cfg[i].0, Lookup(SetItem(cfg, name, sec), cfg[i].0).value);
      } else if i > k {
        assert r[i] == (cfg[i - 1].0, Lookup(SetItem(cfg, name, sec), cfg[i - 1].0).value);
      }
    }
    InsertAtKeepsUnique(cfg, k, name, sec);
  }

  /** `insert_section(config, name, section)`: ask for a position, and put the section there. */
  function InsertSection(style: Style, cfg: Config, name: string, sec: Section, input: seq<string>): (r: Reply<Config>)
    requires UniqueKeys(cfg) && !HasKey(cfg, name)
    ensures r.Answer? ==> |r.rest| < |input|
  {
    GetInsertPositionRange(style, |cfg|, input);
    match GetInsertPosition(style, |cfg|, input)
    case Raise(f) => Raise(f)
    case Answer(position, rest) =>
      if IsCancel(position) then Answer(cfg, rest)
      else Answer(PlaceAt(cfg, ParseDecimal(position).value, name, sec), rest)
  }

  /** The new section lands at the chosen position, the others keep their order, and names stay unique;
      a cancelled insertion changes nothing.  Only end of input makes it fail. */
  lemma InsertSectionPlaces(style: Style, cfg: Config, name: string, sec: Section, input: seq<string>)
    requires UniqueKeys(cfg) && !HasKey(cfg, name)
    ensures var r := InsertSection(style, cfg, name, sec, input);
      var p := GetInsertPosition(style, |cfg|, input);
      (r.Raise? ==> p.Raise? && r.failure == EndOfInput) &&
      (r.Answer? ==> (p.Answer? && r.rest == p.rest && |r.rest| < |input| && UniqueKeys(r.value) &&
        (IsCancel(p.value) ==> r.value == cfg) &&
        (!IsCancel(p.value) ==> (ParseDecimal(p.value).Some? && ParseDecimal(p.value).value <= |cfg| &&
          r.value == InsertAt(cfg, ParseDecimal(p.value).value, (name, sec))))))
  {
    GetInsertPositionRange(style, |cfg|, input);
    var p := GetInsertPosition(style, |cfg|, input);
    if p.Answer? && !IsCancel(p.value) {
      PlaceAtIsInsertAt(cfg, ParseDecimal(p.value).value, name, sec);
    }
  }

  lemma InsertAtKeepsUnique(cfg: Config, k: nat, name: string, sec: Section)
    requires UniqueKeys(cfg) && !HasKey(cfg, name) && k <= |cfg|
    ensures UniqueKeys(InsertAt(cfg, k, (name, sec)))
  {
    var r := InsertAt(cfg, k, (name, sec));
    forall i, j | 0 <= i < j < |r| ensures !SameName(r[i].0, r[j].0) {
      if i != k && j != k {
        var i' := if i < k then i else i - 1;
        var j' := if j < k then j else j - 1;
        assert r[i] == cfg[i'] && r[j] == cfg[j'];
      } else if i == k {
        assert r[j] == cfg[j - 1];
      } else {
        assert r[i] == cfg[i];
      }
    }
  }

  // ----- deletion -----

  /** The configuration without the sections whose name is exactly `name`. */
  function Without(cfg: Config, name: string): (r: Config)
    ensures forall e :: e in r <==> e in cfg && e.0 != name
    ensures |r| <= |cfg|
  {
    if cfg == [] then []
    else (if cfg[0].0 != name then [cfg[0]] else []) + Without(cfg[1..], name)
  }

  const DeleteQuestion := "Chose what section to delete or to cancel the operation!"

  /** `delete_section(config)`: nothing to do on an empty configuration; otherwise ask which section to
      delete, with "cancel" as the default. */
  function DeleteSection(style: Style, cfg: Config, input: seq<string>): (r: Reply<Config>)
    ensures r.Answer? ==> |r.rest| <= |input|
  {
    if cfg == [] then Answer(cfg, input)
    else
      ChosenIsAnOption(style, DeleteQuestion, Keys(cfg) + ["cancel", "c"], "cancel", input);
      match Choose(style, DeleteQuestion, Keys(cfg) + ["cancel", "c"], "cancel", input)
      case Raise(f) => Raise(f)
      case Answer(choice, rest) =>
        if IsCancel(choice) then Answer(cfg, rest) else Answer(Without(cfg, choice), rest)
  }

  /** In a configuration with unique names, removing one name removes exactly its section. */
  lemma {:induction false} WithoutRemovesOne(cfg: Config, i: nat)
    requires UniqueKeys(cfg) && i < |cfg|
    ensures Without(cfg, cfg[i].0) == cfg[..i] + cfg[i + 1..]
    decreases i
  {
    if i == 0 {
      WithoutFirst(cfg);
    } else {
      var tail := cfg[1..];
      assert tail[i - 1] == cfg[i];
      UniqueTail(cfg);
      WithoutRemovesOne(tail, i - 1);
      assert cfg[0].0 != cfg[i].0 by {
        assert !SameName(cfg[0].0, cfg[i].0);
      }
      assert Without(cfg, cfg[i].0) == [cfg[0]] + Without(tail, cfg[i].0);
      SliceShift(cfg, i);
    }
  }

  lemma WithoutFirst(cfg: Config)
    requires UniqueKeys(cfg) && cfg != []
    ensures Without(cfg, cfg[0].0) == cfg[1..]
  {
    var tail := cfg[1..];
    forall j | 0 <= j < |tail| ensures tail[j].0 != cfg[0].0 {
      assert tail[j] == cfg[j + 1];
      assert !SameName(cfg[0].0, cfg[j + 1].0);
    }
    WithoutAbsent(tail, cfg[0].0);
    assert Without(cfg, cfg[0].0) == [] + tail;
  }

  lemma SliceShift(cfg: Config, i: nat)
    requires 0 < i < |cfg|
    ensures cfg[..i] + cfg[i + 1..] == [cfg[0]] + (cfg[1..][..i - 1] + cfg[1..][i..])
  {
  }

  /** Dropping the first section keeps names unique. */
  lemma UniqueTail(cfg: Config)
    requires UniqueKeys(cfg) && cfg != []
    ensures UniqueKeys(cfg[1..])
  {
    forall a, b | 0 <= a < b < |cfg| - 1 ensures !SameName(cfg[1..][a].0, cfg[1..][b].0) {
      assert cfg[1..][a] == cfg[a + 1] && cfg[1..][b] == cfg[b + 1];
    }
  }

  lemma {:induction false} WithoutAbsent(cfg: Config, name: string)
    requires forall j :: 0 <= j < |cfg| ==> cfg[j].0 != name
    ensures Without(cfg, name) == cfg
    decreases |cfg|
  {
    if cfg != [] {
      assert cfg[0].0 != name;
      forall j | 0 <= j < |cfg| - 1 ensures cfg[1..][j].0 != name {
        assert cfg[1..][j] == cfg[j + 1];
      }
      WithoutAbsent(cfg[1..], name);
      assert Without(cfg, name) == [cfg[0]] + cfg[1..];
      assert [cfg[0]] + cfg[1..] == cfg;
    }
  }

  /** Deleting either keeps the configuration (empty, or cancelled) or removes exactly the chosen section,
      leaving the rest in order. */
  lemma DeleteSectionRemovesChosen(style: Style, cfg: Config, input: seq<string>)
    requires UniqueKeys(cfg)
    ensures var r := DeleteSection(style, cfg, input);
      r.Answer? ==> (|r.rest| <= |input| && (r.value == cfg ||
        exists i :: 0 <= i < |cfg| && !IsCancel(cfg[i].0) && r.value == cfg[..i] + cfg[i + 1..]))
    ensures DeleteSection(style, cfg, input).Raise? ==> DeleteSection(style, cfg, input).failure == EndOfInput
    ensures cfg == [] ==> DeleteSection(style, cfg, input) == Answer(cfg, input)
  {
    if cfg != [] {
      var opts := Keys(cfg) + ["cancel", "c"];
      assert opts[|cfg|] == "cancel";
      ChosenIsAnOption(style, DeleteQuestion, opts, "cancel", input);
      var c := Choose(style, DeleteQuestion, opts, "cancel", input);
      if c.Answer? && !IsCancel(c.value) {
        var i :| 0 <= i < |opts| && opts[i] == c.value;
        assert i < |cfg| && cfg[i].0 == c.value;
        WithoutRemovesOne(cfg, i);
      }
    }
  }

  // ----- moving a section -----

  /** The configuration without the section called `name` ignoring case. */
  function WithoutIgnoringCase(cfg: Config, name: string): (r: Config)
    ensures |r| <= |cfg|
  {
    if cfg == [] then []
    else (if !SameName(cfg[0].0, name) then [cfg[0]] else []) + WithoutIgnoringCase(cfg[1..], name)
  }

  /** In a configuration with unique names, this too removes exactly the one section. */
  lemma {:induction false} WithoutIgnoringCaseRemovesOne(cfg: Config, i: nat)
    requires UniqueKeys(cfg) && i < |cfg|
    ensures WithoutIgnoringCase(cfg, cfg[i].0) == cfg[..i] + cfg[i + 1..]
    decreases i
  {
    if i == 0 {
      WithoutIgnoringCaseAbsent(cfg[1..], cfg[0].0);
    } else {
      assert cfg[1..][i - 1] == cfg[i];
      UniqueTail(cfg);
      WithoutIgnoringCaseRemovesOne(cfg[1..], i - 1);
      assert !SameName(cfg[0].0, cfg[i].0);
      assert cfg[..i] + cfg[i + 1..] == [cfg[0]] + (cfg[1..][..i - 1] + cfg[1..][i..]);
    }
  }

  lemma {:induction false} WithoutIgnoringCaseAbsent(cfg: Config, name: string)
    requires forall j :: 0 <= j < |cfg| ==> !SameName(cfg[j].0, name)
    ensures WithoutIgnoringCase(cfg, name) == cfg
    decreases |cfg|
  {
    if cfg != [] {
      assert !SameName(cfg[0].0, name);
      assert forall j :: 0 <= j < |cfg| - 1 ==> cfg[1..][j] == cfg[j + 1];
      WithoutIgnoringCaseAbsent(cfg[1..], name);
    }
  }

  /** Removing one section keeps the other names unique and frees the removed name. */
  lemma RemoveOneKeepsUnique(cfg: Config, i: nat)
    requires UniqueKeys(cfg) && i < |cfg|
    ensures UniqueKeys(cfg[..i] + cfg[i + 1..])
    ensures !HasKey(cfg[..i] + cfg[i + 1..], cfg[i].0)
  {
    var r := cfg[..i] + cfg[i + 1..];
    assert forall a :: 0 <= a < |r| ==> r[a] == cfg[if a < i then a else a + 1];
  }

  /** Taking out the section at `i` (ignoring case, as the move does) leaves the others in order, with
      names unique and the removed name free. */
  lemma TakeOut(cfg: Config, i: nat)
    requires UniqueKeys(cfg) && i < |cfg|
    ensures WithoutIgnoringCase(cfg, cfg[i].0) == cfg[..i] + cfg[i + 1..]
    ensures UniqueKeys(cfg[..i] + cfg[i + 1..]) && !HasKey(cfg[..i] + cfg[i + 1..], cfg[i].0)
    ensures IndexOf(cfg, cfg[i].0) == Some(i) && Lookup(cfg, cfg[i].0) == Some(cfg[i].1)
  {
    RemoveOneKeepsUnique(cfg, i);
    WithoutIgnoringCaseRemovesOne(cfg, i);
    IndexOfUnique(cfg, i);
  }

  /** An answer of the section prompt names a section exactly. */
  lemma ChosenKey(cfg: Config, name: string)
    requires UniqueKeys(cfg) && name in Keys(cfg)
    ensures IndexOf(cfg, name).Some? && cfg[IndexOf(cfg, name).value].0 == name
  {
    var j :| 0 <= j < |cfg| && Keys(cfg)[j] == name;
    IndexOfUnique(cfg, j);
  }

  const SectionQuestion := "Choose the section to edit:"

  /** `change_section_position(config)` as written: the chosen section is taken out first, and a
      cancelled position prompt returns the configuration without it. */
  function ChangeSectionPositionAsWritten(style: Style, cfg: Config, input: seq<string>): (r: Reply<Config>)
    requires UniqueKeys(cfg)
    ensures r.Answer? ==> |r.rest| <= |input|
  {
    if cfg == [] then Answer(cfg, input)
    else
      ChosenIsAnOption(style, SectionQuestion, Keys(cfg), cfg[0].0, input);
      match Choose(style, SectionQuestion, Keys(cfg), cfg[0].0, input)
      case Raise(f) => Raise(f)
      case Answer(name, rest) =>
        ChosenKey(cfg, name);
        TakeOut(cfg, IndexOf(cfg, name).value);
        InsertSection(style, WithoutIgnoringCase(cfg, name), name, Lookup(cfg, name).value, rest)
  }

  /** The section moved: `cfg[i]` taken out and put back at position `k`. */
  function Moved(cfg: Config, i: nat, k: nat): Config
    requires i < |cfg| && k < |cfg|
  {
    InsertAt(cfg[..i] + cfg[i + 1..], k, cfg[i])
  }

  /** Moving a section keeps the same sections. */
  lemma MovedIsPermutation(cfg: Config, i: nat, k: nat)
    requires i < |cfg| && k < |cfg|
    ensures multiset(Moved(cfg, i, k)) == multiset(cfg)
  {
    var temp := cfg[..i] + cfg[i + 1..];
    assert cfg == cfg[..i] + [cfg[i]] + cfg[i + 1..];
    assert multiset(cfg) == multiset(temp) + multiset{cfg[i]};
    assert temp == temp[..k] + temp[k..];
    assert Moved(cfg, i, k) == temp[..k] + [cfg[i]] + temp[k..];
    assert multiset(Moved(cfg, i, k)) == multiset(temp) + multiset{cfg[i]};
  }

  /** Cancelling the position prompt loses the chosen section: the result has one section fewer. */
  lemma ChangeSectionPositionCancelLoses(style: Style, cfg: Config, input: seq<string>, i: nat)
    requires UniqueKeys(cfg) && i < |cfg|
    requires Choose(style, SectionQuestion, Keys(cfg), cfg[0].0, input).Answer?
    requires Choose(style, SectionQuestion, Keys(cfg), cfg[0].0, input).value == cfg[i].0
    requires var rest := Choose(style, SectionQuestion, Keys(cfg), cfg[0].0, input).rest;
      GetInsertPosition(style, |cfg| - 1, rest).Answer? && IsCancel(GetInsertPosition(style, |cfg| - 1, rest).value)
    ensures var r := ChangeSectionPositionAsWritten(style, cfg, input);
      r.Answer? && r.value == cfg[..i] + cfg[i + 1..] && |r.value| == |cfg| - 1 && !HasKey(r.value, cfg[i].0)
  {
    var c := Choose(style, SectionQuestion, Keys(cfg), cfg[0].0, input);
    TakeOut(cfg, i);
    var temp := cfg[..i] + cfg[i + 1..];
    assert |temp| == |cfg| - 1;
    assert ChangeSectionPositionAsWritten(style, cfg, input) == InsertSection(style, temp, cfg[i].0, cfg[i].1, c.rest);
    InsertSectionPlaces(style, temp, cfg[i].0, cfg[i].1, c.rest);
  }

  /** The smallest instance: two sections, choose "A", then answer "cancel"; section A is gone. */
  lemma ChangeSectionPositionCancelExample(style: Style, cfg: Config, input: seq<string>)
    requires cfg == [("A", map[]), ("B", map[])] && input == ["A", "cancel"]
    ensures UniqueKeys(cfg) && ChangeSectionPositionAsWritten(style, cfg, input) == Answer([("B", map[])], [])
  {
    assert UniqueKeys(cfg) by {
      assert Lower("A") == "a" && Lower("B") == "b";
    }
    assert Keys(cfg) == ["A", "B"];
    assert Strip("A") == "A" by {
      assert !IsSpace('A');
    }
    FirstIgnoringCaseAt(["A", "B"], "A", 0);
    TypedAnswerTakesOption(style, SectionQuestion, ["A", "B"], "A", "A", ["cancel"], 0);
    assert input == ["A"] + ["cancel"];
    assert ["cancel"] == ["cancel"] + [];
    CancelIsTaken(style, 1, []);
    ChangeSectionPositionCancelLoses(style, cfg, input, 0);
    assert cfg[..0] + cfg[1..] == [("B", map[])];
  }

  /** Typing "cancel" at the position prompt cancels. */
  lemma CancelIsTaken(style: Style, endPos: nat, rest: seq<string>)
    ensures GetInsertPosition(style, endPos, ["cancel"] + rest) == Answer("cancel", rest)
  {
    var opts := PositionOptions(endPos);
    var k := endPos + 3;
    assert opts[k] == "cancel" && opts[0] == "start" && opts[endPos + 2] == "end";
    assert Strip("cancel") == "cancel";
    assert Lower("cancel") == "cancel";
    NumeralsAreNotWords(endPos, "cancel");
    assert |Lower(opts[0])| == 5 && |Lower(opts[endPos + 2])| == 3;
    FirstIgnoringCaseAt(opts, "cancel", k);
    TypedPosition(style, endPos, "cancel", rest, k);
  }

  /** `change_section_position(config)` as intended: a cancelled move leaves the configuration as it was. */
  function ChangeSectionPosition(style: Style, cfg: Config, input: seq<string>): (r: Reply<Config>)
    requires UniqueKeys(cfg)
    ensures r.Answer? ==> |r.rest| <= |input|
  {
    if cfg == [] then Answer(cfg, input)
    else
      ChosenIsAnOption(style, SectionQuestion, Keys(cfg), cfg[0].0, input);
      match Choose(style, SectionQuestion, Keys(cfg), cfg[0].0, input)
      case Raise(f) => Raise(f)
      case Answer(name, rest) =>
        ChosenKey(cfg, name);
        TakeOut(cfg, IndexOf(cfg, name).value);
        var temp := WithoutIgnoringCase(cfg, name);
        InsertSectionPlaces(style, temp, name, Lookup(cfg, name).value, rest);
        match InsertSection(style, temp, name, Lookup(cfg, name).value, rest)
        case Raise(f) => Raise(f)
        case Answer(moved, rest') =>
          if IsCancel(GetInsertPosition(style, |temp|, rest).value) then Answer(cfg, rest') else Answer(moved, rest')
  }

  /** A move keeps every section and the uniqueness of names: the result is the configuration itself or
      one section taken out and put back elsewhere. */
  lemma ChangeSectionPositionKeepsSections(style: Style, cfg: Config, input: seq<string>)
    requires UniqueKeys(cfg)
    ensures var r := ChangeSectionPosition(style, cfg, input);
      r.Answer? ==> (UniqueKeys(r.value) && multiset(r.value) == multiset(cfg) &&
        (r.value == cfg || exists i, k :: 0 <= i < |cfg| && 0 <= k < |cfg| && r.value == Moved(cfg, i, k)))
    ensures ChangeSectionPosition(style, cfg, input).Raise? ==> ChangeSectionPosition(style, cfg, input).failure == EndOfInput
  {
    if cfg != [] {
      ChosenIsAnOption(style, SectionQuestion, Keys(cfg), cfg[0].0, input);
      var c := Choose(style, SectionQuestion, Keys(cfg), cfg[0].0, input);
      var r := ChangeSectionPosition(style, cfg, input);
      if c.Answer? {
        ChosenKey(cfg, c.value);
        var i := IndexOf(cfg, c.value).value;
        TakeOut(cfg, i);
        var temp := cfg[..i] + cfg[i + 1..];
        MoveChosen(style, cfg, i, c.rest);
        var q := InsertSection(style, temp, c.value, cfg[i].1, c.rest);
        var p := GetInsertPosition(style, |temp|, c.rest);
        assert r == match q
          case Raise(f) => Raise(f)
          case Answer(moved, rest') => if IsCancel(p.value) then Answer(cfg, rest') else Answer(moved, rest');
      } else {
        assert c.failure == EndOfInput by {
          assert cfg[0].0 == Keys(cfg)[0];
        }
      }
    }
  }

  /** Once the section at `i` is chosen, putting it back at a position moves it there. */
  lemma MoveChosen(style: Style, cfg: Config, i: nat, rest: seq<string>)
    requires UniqueKeys(cfg) && i < |cfg|
    ensures var temp := cfg[..i] + cfg[i + 1..];
      var q := InsertSection(style, temp, cfg[i].0, cfg[i].1, rest);
      var p := GetInsertPosition(style, |temp|, rest);
      (q.Raise? ==> q.failure == EndOfInput) &&
      (q.Answer? ==> (p.Answer? && (IsCancel(p.value) || (exists k :: (0 <= k < |cfg| && q.value == Moved(cfg, i, k) &&
        UniqueKeys(q.value) && multiset(q.value) == multiset(cfg))))))
  {
    TakeOut(cfg, i);
    var temp := cfg[..i] + cfg[i + 1..];
    InsertSectionPlaces(style, temp, cfg[i].0, cfg[i].1, rest);
    var q := InsertSection(style, temp, cfg[i].0, cfg[i].1, rest);
    var p := GetInsertPosition(style, |temp|, rest);
    if q.Answer? && !IsCancel(p.value) {
      var k := ParseDecimal(p.value).value;
      assert (cfg[i].0, cfg[i].1) == cfg[i];
      assert q.value == Moved(cfg, i, k);
      MovedIsPermutation(cfg, i, k);
    }
  }

  /** The move as written keeps names unique; it returns the configuration itself, the configuration
      with the chosen section missing (a cancelled position), or the chosen section moved elsewhere. */
  lemma ChangeSectionPositionAsWrittenMeaning(style: Style, cfg: Config, input: seq<string>)
    requires UniqueKeys(cfg)
    ensures var r := ChangeSectionPositionAsWritten(style, cfg, input);
      (r.Answer? ==> (UniqueKeys(r.value) && (r.value == cfg ||
        exists i :: 0 <= i < |cfg| && (r.value == cfg[..i] + cfg[i + 1..] ||
          exists k :: 0 <= k < |cfg| && r.value == Moved(cfg, i, k))))) &&
      (r.Raise? ==> r.failure == EndOfInput)
  {
    if cfg != [] {
      ChosenIsAnOption(style, SectionQuestion, Keys(cfg), cfg[0].0, input);
      var c := Choose(style, SectionQuestion, Keys(cfg), cfg[0].0, input);
      var r := ChangeSectionPositionAsWritten(style, cfg, input);
      if c.Answer? {
        ChosenKey(cfg, c.value);
        var i := IndexOf(cfg, c.value).value;
        TakeOut(cfg, i);
        var temp := cfg[..i] + cfg[i + 1..];
        MoveChosen(style, cfg, i, c.rest);
        InsertSectionPlaces(style, temp, cfg[i].0, cfg[i].1, c.rest);
        assert r == InsertSection(style, temp, cfg[i].0, cfg[i].1, c.rest);
      } else {
        assert c.failure == EndOfInput by {
          assert cfg[0].0 == Keys(cfg)[0];
        }
      }
    }
  }
}
