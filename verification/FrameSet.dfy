/** The set of free frames that the allocator's bitmap stands for (sys/phy_mem.c). */
module FrameSet {

  lemma {:induction false} LeastOf(free: set<nat>) returns (f: nat)
    requires free != {}
    ensures f in free && forall g :: g in free ==> f <= g
  {
    f :| f in free;
    if g :| g in free && g < f {
      assert g in free - {f};
      var h := LeastOf(free - {f});
      assert forall x :: x in free ==> x == f || x in free - {f};
      f := h;
    }
  }

  ghost predicate IsLowest(free: set<nat>, f: nat) {
    f in free && forall g :: g in free ==> f <= g
  }

  lemma LowestExists(free: set<nat>)
    requires free != {}
    ensures exists f :: IsLowest(free, f)
  {
    var f := LeastOf(free);
    assert IsLowest(free, f);
  }

  ghost function Lowest(free: set<nat>): (f: nat)
    requires free != {}
    ensures IsLowest(free, f)
  {
    LowestExists(free);
    var f :| IsLowest(free, f);
    f
  }
}
