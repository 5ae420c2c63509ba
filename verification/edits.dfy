/** The edit mini-language of a rule's `mods` entry: "." leaves the word
    alone; otherwise every '-' strips one trailing character and the entry
    with its '-' removed is appended. */
module Edits {
  import opened Wrappers
  import opened Strings

  /** The entry that leaves the word unchanged. */
  const NoChange: string := "."

  /** The character that strips one trailing character. */
  const StripMarker: char := '-'

  /** `applyRule`. Stripping more characters than the word has panics in Go
      (a negative slice bound); that is `None` here. */
  function ApplyRule(mod: string, name: string): (r: Option<string>)
    ensures mod == NoChange ==> r == Some(name)
    ensures mod != NoChange ==> (r.Some? <==> Count(mod, StripMarker) <= |name|)
    ensures r.Some? && mod != NoChange ==>
              |r.value| == |name| - Count(mod, StripMarker) + (|mod| - Count(mod, StripMarker))
    ensures r.Some? && mod != NoChange ==> name[..|name| - Count(mod, StripMarker)] <= r.value
    ensures r.Some? && StripMarker !in name ==> StripMarker !in r.value
  {
    if mod == NoChange then Some(name)
    else
      var strip := Count(mod, StripMarker);
      if strip <= |name| then Some(name[..|name| - strip] + Remove(mod, StripMarker))
      else None
  }

  /** An edit in parsed form: keep the word, or strip `strip` trailing
      characters and append `suffix`. */
  datatype Edit = Keep | Rewrite(strip: nat, suffix: string)

  /** An edit that has a faithful encoding: the appended text holds no strip
      marker, and a rewrite is never spelled like the no-change entry. */
  predicate Encodable(e: Edit) {
    e.Rewrite? ==> StripMarker !in e.suffix && !(e.strip == 0 && e.suffix == NoChange)
  }

  /** `k` strip markers. */
  function Markers(k: nat): (s: string)
  {
    Repeat(StripMarker, k)
  }

  /** The table spelling of an edit: the markers first, then the suffix. */
  function Encode(e: Edit): string {
    match e
    case Keep => NoChange
    case Rewrite(strip, suffix) => Markers(strip) + suffix
  }

  /** Reading a table entry back as an edit. */
  function Parse(mod: string): Edit {
    if mod == NoChange then Keep else Rewrite(Count(mod, StripMarker), Remove(mod, StripMarker))
  }

  /** What an edit does to a word, stated on the parsed form. */
  function ApplyEdit(e: Edit, name: string): Option<string> {
    match e
    case Keep => Some(name)
    case Rewrite(strip, suffix) =>
      if strip <= |name| then Some(name[..|name| - strip] + suffix) else None
  }

  lemma {:induction false} MarkersCountAndRemove(k: nat)
    ensures Count(Markers(k), StripMarker) == k
    ensures Remove(Markers(k), StripMarker) == ""
  {
    if k > 0 {
      MarkersCountAndRemove(k - 1);
      assert Markers(k)[1..] == Markers(k - 1);
    }
  }

  /** The parts of an encoded edit can be read back from its spelling. */
  lemma EncodedParts(e: Edit)
    requires Encodable(e) && e.Rewrite?
    ensures Encode(e) != NoChange
    ensures Count(Encode(e), StripMarker) == e.strip
    ensures Remove(Encode(e), StripMarker) == e.suffix
  {
    var m := Markers(e.strip);
    MarkersCountAndRemove(e.strip);
    CountAppend(m, e.suffix, StripMarker);
    RemoveAppend(m, e.suffix, StripMarker);
    RemoveAbsent(e.suffix, StripMarker);
    if e.strip > 0 {
      assert Encode(e)[0] == StripMarker;
    }
  }

  /** Parsing an encoded edit gives the edit back. */
  lemma ParseEncode(e: Edit)
    requires Encodable(e)
    ensures Parse(Encode(e)) == e
  {
    if e.Rewrite? {
      EncodedParts(e);
    }
  }

  /** `applyRule` on a table entry does what the parsed edit says. */
  lemma ApplyRuleEncoded(e: Edit, name: string)
    requires Encodable(e)
    ensures ApplyRule(Encode(e), name) == ApplyEdit(e, name)
  {
    if e.Rewrite? {
      EncodedParts(e);
    }
  }
}
