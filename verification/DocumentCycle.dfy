/** From a document to its granular updates and back. */
module DocumentCycle {
  import opened Gnmi
  import opened Documents
  import opened Rebuild
  import opened EmissionOrder
  import Explode
  import RoundTrip
  import ExactRebuild

  /** The updates without the first `n` elements of their paths, as a query for a path of that
      length strips them. */
  function Strip(n: nat, us: seq<Leaf>): seq<Leaf> {
    seq(|us|, i requires 0 <= i < |us| => (if n <= |us[i].0| then us[i].0[n..] else [], us[i].1))
  }

  lemma StripPrefix(p: seq<PathElem>, us: seq<Leaf>)
    ensures Strip(|p|, Prefix(p, us)) == us
  {
    forall i | 0 <= i < |us| ensures Strip(|p|, Prefix(p, us))[i] == us[i] {
      assert (p + us[i].0)[|p|..] == us[i].0;
    }
  }

  /** The granular updates of a document at a path.  Stripped of the path again and folded in this
      order they give back exactly the document with its key leaves as the texts that the paths
      carry, which is the document itself if they are texts already; in any other order, and with
      any repetitions, they give it back up to the order of list entries. */
  method GetGranularUpdates(p: seq<PathElem>, d: Json, rs: Entry, sprint: Json -> string)
    returns (upds: seq<Leaf>, ok: bool)
    ensures var e, key := EntryAt(rs, p), Explode.LastKey(p);
            var x := Explode.Seen(e, key, d, sprint);
            && (Explode.Explodes(e, key, x) ==>
                  && ok
                  && Fold(Strip(|p|, upds)) == Ok(x)
                  && forall us | (forall u :: u in us <==> u in Strip(|p|, upds)) ::
                       Fold(us).Ok? && SameDoc(Fold(us).value, x))
            && (Explode.Explodes(e, key, d) ==> x == d)
  {
    ghost var rel;
    upds, ok, rel := Explode.Granular(p, d, rs, sprint, []);
    ghost var e, key := EntryAt(rs, p), Explode.LastKey(p);
    ghost var x := Explode.Seen(e, key, d, sprint);
    hide Explode.Seen;
    if Explode.Explodes(e, key, d) { Explode.SeenAsIs(e, key, d, sprint); }
    if Explode.Explodes(e, key, x) {
      assert upds == Prefix(p, rel);
      StripPrefix(p, rel);
      ExactRebuild.RebuildsExactly(e, x, rel);
      forall us | (forall u :: u in us <==> u in rel) ensures Fold(us).Ok? && SameDoc(Fold(us).value, x) {
        SameLeaves(e, x, rel, us);
        RoundTrip.RebuildsDocument(e, x, us);
      }
    }
  }

  lemma SameLeaves(e: Entry, d: Json, us: seq<Leaf>, vs: seq<Leaf>)
    requires LeavesOf(e, d, us) && forall u :: u in vs <==> u in us
    ensures LeavesOf(e, d, vs)
  {
  }
}
