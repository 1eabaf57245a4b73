/** The conflict table (output.c, token_actions and find_conflict_base): one list per conflict, each closed by -1,
    where a list may be shared and may begin with the end of the one before. */
module ConflictTable {

  /** The first element of a list is a shift target, or -1 when there is no shift; then come the reductions. */
  ghost predicate IsList(ent: seq<int>) {
    |ent| >= 1 && ent[|ent| - 1] == -1 && ent[0] >= -1 && forall k :: 0 < k < |ent| - 1 ==> ent[k] >= 0
  }

  ghost predicate EntryAt(conf: seq<int>, e: int, ent: seq<int>) {
    0 <= e && e + |ent| <= |conf| && conf[e..e + |ent|] == ent
  }

  /** A table of whole lists. */
  ghost predicate Whole(conf: seq<int>) { |conf| > 0 ==> conf[|conf| - 1] == -1 }

  lemma EntryStays(conf: seq<int>, conf': seq<int>, e: int, ent: seq<int>)
    requires EntryAt(conf, e, ent) && conf <= conf'
    ensures EntryAt(conf', e, ent)
  {
    assert conf'[e..e + |ent|] == conf[e..e + |ent|];
  }

  lemma Differs(conf: seq<int>, cbase: nat, i: nat, j: nat)
    requires i <= cbase && cbase + j < |conf| && conf[i + j] != conf[cbase + j]
    ensures !EntryAt(conf, i, conf[cbase..])
  {
    var n := |conf| - cbase;
    assert conf[i..i + n][j] == conf[i + j];
    assert conf[cbase..][j] == conf[cbase + j];
  }

  lemma OneMore(conf: seq<int>, cbase: nat, i: nat, j: nat)
    requires i <= cbase && cbase + j < |conf| && conf[i..i + j] == conf[cbase..cbase + j] && conf[i + j] == conf[cbase + j]
    ensures conf[i..i + (j + 1)] == conf[cbase..cbase + (j + 1)]
  {
    assert conf[i..i + (j + 1)] == conf[i..i + j] + [conf[i + j]];
    assert conf[cbase..cbase + (j + 1)] == conf[cbase..cbase + j] + [conf[cbase + j]];
  }

  /** find_conflict_base: the first earlier place with the same list as the one that begins at cbase. */
  method FindConflictBase(conf: seq<int>, cbase: nat) returns (i: nat)
    requires cbase <= |conf|
    ensures i <= cbase && EntryAt(conf, i, conf[cbase..])
    ensures forall k: nat :: k < i ==> !EntryAt(conf, k, conf[cbase..])
  {
    i := 0;
    while i < cbase
      invariant i <= cbase && forall k: nat :: k < i ==> !EntryAt(conf, k, conf[cbase..])
    {
      var j := 0;
      while j + cbase < |conf|
        invariant j + cbase <= |conf| && conf[i..i + j] == conf[cbase..cbase + j]
      {
        if conf[i + j] != conf[cbase + j] {
          Differs(conf, cbase, i, j);
          break;
        }
        OneMore(conf, cbase, i, j);
        j := j + 1;
      }
      if j + cbase >= |conf| {
        assert conf[cbase..cbase + j] == conf[cbase..];
        assert EntryAt(conf, i, conf[cbase..]);
        return;
      }
      i := i + 1;
    }
    assert conf[cbase..cbase + |conf[cbase..]|] == conf[cbase..];
  }

  /** The list under construction begins where the table `keep` ends, or with the -1 at the end of it. */
  ghost predicate Begun(keep: seq<int>, conf: seq<int>, cbase: nat) {
    && Whole(keep) && keep <= conf && cbase <= |keep|
    && (cbase == |keep| || (cbase == |keep| - 1 && keep[cbase] == -1))
  }

  /** A list found earlier lies in the part that is kept when the new one is taken back. */
  lemma FoundBefore(keep: seq<int>, conf: seq<int>, cbase: nat, j: nat)
    requires Begun(keep, conf, cbase) && IsList(conf[cbase..]) && j < cbase && EntryAt(conf, j, conf[cbase..])
    ensures j + |conf[cbase..]| <= if conf[cbase] == -1 then cbase + 1 else cbase
  {
    var ent := conf[cbase..];
    ElementAt(conf, j, ent, 0);
    ElementAt(conf, j, ent, cbase - j);
    ElementAt(conf, j, ent, cbase - 1 - j);
  }

  lemma ElementAt(conf: seq<int>, e: int, ent: seq<int>, k: int)
    requires EntryAt(conf, e, ent)
    ensures 0 <= k < |ent| ==> conf[e + k] == ent[k]
  {
    assert 0 <= k < |ent| ==> conf[e..e + |ent|][k] == conf[e + k];
  }

  lemma BegunMeans(keep: seq<int>, open: seq<int>, cbase: nat)
    requires Begun(keep, open, cbase)
    ensures keep <= open && keep <= open + [-1] && cbase <= |open| && Begun(keep, open + [-1], cbase) && Whole(open + [-1])
  {}

  /** What is left when the new list is taken back, all but a -1 it began with. */
  lemma TakenBack(keep: seq<int>, open: seq<int>, conf: seq<int>, cbase: nat, j: nat)
    requires conf == open + [-1] && Begun(keep, open, cbase) && Begun(keep, conf, cbase) && cbase < |conf|
    requires IsList(conf[cbase..]) && j < cbase && EntryAt(conf, j, conf[cbase..])
    ensures var c := if conf[cbase] == -1 then cbase + 1 else cbase;
      keep <= conf[..c] && Whole(conf[..c]) && EntryAt(conf[..c], j, conf[cbase..])
  {
    FoundBefore(keep, conf, cbase, j);
    var ent := conf[cbase..];
    assert ent[0] == conf[cbase];
    var c := if conf[cbase] == -1 then cbase + 1 else cbase;
    assert conf[..c][j..j + |ent|] == conf[j..j + |ent|];
  }

  /** What stays of a list that is taken back: a -1 at its beginning. */
  function Remains(ent: seq<int>): (r: seq<int>)
    ensures r <= ent
  {
    if |ent| > 0 && ent[0] == -1 then ent[..1] else []
  }

  /** The end of a conflict: the list is closed, looked for among the earlier ones, and taken back if found. */
  method Close(ghost keep: seq<int>, open: seq<int>, cbase0: nat) returns (conf: seq<int>, cbase: nat, j: nat)
    requires Begun(keep, open, cbase0) && IsList(open[cbase0..] + [-1])
    ensures cbase == |conf| && Whole(conf) && keep <= conf && EntryAt(conf, j, open[cbase0..] + [-1])
    ensures j <= cbase0 && forall k: nat :: k < j ==> !EntryAt(open + [-1], k, open[cbase0..] + [-1])
    ensures j == cbase0 ==> conf == open + [-1]
    ensures j < cbase0 ==> conf == open[..cbase0] + Remains(open[cbase0..] + [-1])
  {
    hide IsList, EntryAt, Whole;
    BegunMeans(keep, open, cbase0);
    conf, cbase := open + [-1], cbase0;
    assert conf[cbase..] == open[cbase0..] + [-1];
    j := FindConflictBase(conf, cbase);
    if j == cbase {
      cbase := |conf|;
    } else {
      TakenBack(keep, open, conf, cbase, j);
      if conf[cbase] == -1 { cbase := cbase + 1; }
      conf := conf[..cbase];
    }
  }
}
