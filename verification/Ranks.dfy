/** Counting and ranks: where the i-th element of a sequence ends up when only some are kept. */
module Ranks {
  /** How many of the flags are set. */
  ghost function Trues(flags: seq<bool>): nat {
    |set i: nat | i < |flags| && flags[i]|
  }

  lemma TruesSnoc(flags: seq<bool>, flag: bool)
    ensures Trues(flags + [flag]) == Trues(flags) + (if flag then 1 else 0)
  {
    var all := flags + [flag];
    var before, after := set i: nat | i < |flags| && flags[i], set i: nat | i < |all| && all[i];
    assert after == before + (if flag then {|flags|} else {});
  }

  lemma TruesNone()
    ensures Trues([]) == 0
  {
    var none: seq<bool> := [];
    assert (set i: nat | i < |none| && none[i]) == {};
  }

  /** `kept` holds, in order, one fitting element for each source whose flag is set, and nothing else:
      what belongs to a source stands behind all that belongs to earlier ones. */
  ghost predicate Keeps<S(!new), T(!new)>(kept: seq<T>, sources: seq<S>, flags: seq<bool>, fits: (S, T) -> bool) {
    && |flags| == |sources| && |kept| == Trues(flags)
    && forall i: nat :: i < |flags| && flags[i] ==>
         Trues(flags[..i]) < |kept| && fits(sources[i], kept[Trues(flags[..i])])
  }

  lemma KeepsNothing<S(!new), T(!new)>(fits: (S, T) -> bool)
    ensures Keeps([], [], [], fits)
  {
    TruesNone();
  }

  lemma KeepsSnoc<S(!new), T(!new)>(kept: seq<T>, sources: seq<S>, flags: seq<bool>, fits: (S, T) -> bool,
                                    more: seq<T>, source: S, flag: bool)
    requires Keeps(kept, sources, flags, fits)
    requires |more| == (if flag then 1 else 0) && (flag ==> fits(source, more[0]))
    ensures Keeps(kept + more, sources + [source], flags + [flag], fits)
  {
    var all := flags + [flag];
    TruesSnoc(flags, flag);
    forall i: nat | i < |all| && all[i]
      ensures Trues(all[..i]) < |kept + more| && fits((sources + [source])[i], (kept + more)[Trues(all[..i])])
    {
      if i < |flags| {
        assert all[..i] == flags[..i];
      } else {
        assert all[..i] == flags;
      }
    }
  }
}
