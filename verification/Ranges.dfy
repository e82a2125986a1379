/** Ranges of byte positions. */
module Ranges {

  datatype Range = Range(off: nat, len: nat)

  function End(r: Range): nat {
    r.off + r.len
  }

  ghost predicate Covers(rs: seq<Range>, p: nat) {
    exists i :: 0 <= i < |rs| && rs[i].off <= p < End(rs[i])
  }

  lemma CoversSnoc(rs: seq<Range>, r: Range, p: nat)
    ensures Covers(rs + [r], p) <==> Covers(rs, p) || r.off <= p < End(r)
  {
    var a := rs + [r];
    if Covers(rs, p) {
      var i :| 0 <= i < |rs| && rs[i].off <= p < End(rs[i]);
      assert a[i].off <= p < End(a[i]);
    }
    if r.off <= p < End(r) {
      assert a[|rs|].off <= p < End(a[|rs|]);
    }
    if Covers(a, p) {
      var i :| 0 <= i < |a| && a[i].off <= p < End(a[i]);
      assert i < |rs| ==> rs[i].off <= p < End(rs[i]);
    }
  }

  lemma CoversNothing(p: nat)
    ensures !Covers([], p)
  {
  }
}
