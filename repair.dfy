/**
 * `repair_config`: every section whose printer the system does not know gets a printer
 * chosen by the user; everything else stays as it is.
 */
module Repair {
  import opened Wrappers
  import opened Config
  import opened Prompt
  import opened SectionEditing

  /** A section names a printer, and it is not one of the system's printers (a non-string never is). */
  predicate PrinterBroken(sec: Section, printers: Printers) {
    "printer" in sec && !(sec["printer"].Str? && sec["printer"].s in printers.names)
  }

  /** Every section that names a printer names one the system knows. */
  predicate PrintersKnown(cfg: Config, printers: Printers) {
    forall i :: 0 <= i < |cfg| ==> !PrinterBroken(cfg[i].1, printers)
  }

  const RepairQuestion := "Please select a new valid printer."

  /** The entries `done` put in front of a successful result. */
  function PrependEntries(done: Config, r: Reply<Config>): Reply<Config> {
    match r
    case Answer(tail, rest) => Answer(done + tail, rest)
    case Raise(f) => Raise(f)
  }

  /** The repair, section by section: a broken printer is replaced by the user's choice among the
      system's printers, with the default printer as default. */
  function RepairSpec(style: Style, printers: Printers, cfg: Config, input: seq<string>): (r: Reply<Config>)
    ensures r.Answer? ==> |r.rest| <= |input|
    decreases |cfg|
  {
    if cfg == [] then Answer([], input)
    else if PrinterBroken(cfg[0].1, printers) then
      ChosenIsAnOption(style, RepairQuestion, printers.names, printers.default, input);
      match Choose(style, RepairQuestion, printers.names, printers.default, input)
      case Raise(f) => Raise(f)
      case Answer(printer, rest) =>
        PrependEntries([(cfg[0].0, cfg[0].1["printer" := Str(printer)])], RepairSpec(style, printers, cfg[1..], rest))
    else PrependEntries([cfg[0]], RepairSpec(style, printers, cfg[1..], input))
  }

  /** The repaired configuration has the same sections in the same order; a section whose printer was
      unknown now has one the system knows and is otherwise unchanged; every other section is unchanged.
      A failure is end of input or, when something needed repair, an unusable printer list. */
  lemma {:induction false} RepairMeaning(style: Style, printers: Printers, cfg: Config, input: seq<string>)
    ensures var r := RepairSpec(style, printers, cfg, input);
      (r.Answer? ==> (|r.value| == |cfg| && Keys(r.value) == Keys(cfg) && PrintersKnown(r.value, printers) &&
        forall i :: 0 <= i < |cfg| ==>
          if PrinterBroken(cfg[i].1, printers) then
            "printer" in r.value[i].1 && r.value[i].1 == cfg[i].1["printer" := r.value[i].1["printer"]]
          else r.value[i] == cfg[i])) &&
      (r.Raise? ==> r.failure == EndOfInput || !PrintersUsable(printers))
    decreases |cfg|
  {
    if cfg != [] {
      var head := cfg[0];
      var input' := input;
      var entry := head;
      var ok := true;
      if PrinterBroken(head.1, printers) {
        ChosenIsAnOption(style, RepairQuestion, printers.names, printers.default, input);
        var c := Choose(style, RepairQuestion, printers.names, printers.default, input);
        if c.Raise? {
          ok := false;
        } else {
          input' := c.rest;
          entry := (head.0, head.1["printer" := Str(c.value)]);
        }
      }
      if ok {
        RepairMeaning(style, printers, cfg[1..], input');
        var t := RepairSpec(style, printers, cfg[1..], input');
        assert RepairSpec(style, printers, cfg, input) == PrependEntries([entry], t);
        if t.Answer? {
          var r := [entry] + t.value;
          forall i | 0 <= i < |cfg| ensures Keys(r)[i] == Keys(cfg)[i] {
            if i > 0 {
              assert r[i] == t.value[i - 1] && cfg[i] == cfg[1..][i - 1];
            }
          }
          forall i | 1 <= i < |cfg| ensures r[i] == t.value[i - 1] && cfg[i] == cfg[1..][i - 1] {
          }
        }
      }
    }
  }

  /** With no unknown printer the configuration comes back unchanged and no answer is read. */
  lemma {:induction false} RepairNothingBroken(style: Style, printers: Printers, cfg: Config, input: seq<string>)
    requires PrintersKnown(cfg, printers)
    ensures RepairSpec(style, printers, cfg, input) == Answer(cfg, input)
    decreases |cfg|
  {
    if cfg != [] {
      assert PrintersKnown(cfg[1..], printers) by {
        forall i | 0 <= i < |cfg| - 1 ensures !PrinterBroken(cfg[1..][i].1, printers) {
          assert cfg[1..][i] == cfg[i + 1];
        }
      }
      RepairNothingBroken(style, printers, cfg[1..], input);
      assert [cfg[0]] + cfg[1..] == cfg;
    }
  }

  /** `repair_config` as the program runs it: a loop over the sections. */
  method RepairConfig(style: Style, printers: Printers, cfg: Config, input: seq<string>) returns (r: Reply<Config>)
    ensures r == RepairSpec(style, printers, cfg, input)
  {
    var done: Config := [];
    var remaining := input;
    var i := 0;
    assert cfg[i..] == cfg;
    PrependNothing(RepairSpec(style, printers, cfg, input));
    while i < |cfg|
      invariant 0 <= i <= |cfg|
      invariant RepairSpec(style, printers, cfg, input) == PrependEntries(done, RepairSpec(style, printers, cfg[i..], remaining))
    {
      var entry := cfg[i];
      assert cfg[i..][0] == entry && cfg[i..][1..] == cfg[i + 1..];
      if PrinterBroken(entry.1, printers) {
        var choice := InputChoice(style, RepairQuestion, printers.names, printers.default, remaining);
        if choice.Raise? {
          return Raise(choice.failure);
        }
        entry := (entry.0, entry.1["printer" := Str(choice.value)]);
        remaining := choice.rest;
      }
      PrependTwice(done, [entry], RepairSpec(style, printers, cfg[i + 1..], remaining));
      done := done + [entry];
      i := i + 1;
    }
    assert cfg[i..] == [];
    assert done + [] == done;
    return Answer(done, remaining);
  }

  lemma PrependNothing(r: Reply<Config>)
    ensures PrependEntries([], r) == r
  {
    if r.Answer? {
      assert [] + r.value == r.value;
    }
  }

  lemma PrependTwice(a: Config, b: Config, r: Reply<Config>)
    ensures PrependEntries(a, PrependEntries(b, r)) == PrependEntries(a + b, r)
  {
    if r.Answer? {
      assert a + (b + r.value) == (a + b) + r.value;
    }
  }
}
