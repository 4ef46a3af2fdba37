/** The script calls a second run a no-op.  This module says exactly when that holds. */
module LinkifySecondPass {
  import opened Linkify
  import opened LinkifyIdempotence
  import opened LinkifyPass
  import opened LinkifyCut
  import opened LinkifyExposed

  lemma SecondRepairIff(line: string, resolve: Resolver)
    requires CleanTargets(resolve)
    ensures var once := Pass(line, resolve);
            Pass(once, resolve) == once <==> Ticks(once) % 2 == 0 || Orphans(once) == 0
  {
    hide Scan, Ticks, Orphans, RepairAll, CleanTargets;
    var once := Pass(line, resolve);
    RepairTicks(once);
    if Ticks(once) % 2 == 0 || Orphans(once) == 0 {
      Idempotent(Repair(line), resolve);
    } else {
      TicksPreserved(Repair(once), Outside(0), false, resolve);
    }
  }

  /** The line has an even number of backticks, or an odd number of orphans is repaired, or in the
      repaired line, cut into characters and spans to be linked, no link stands before an anchor. */
  ghost predicate Settles(line: string, resolve: Resolver) {
    Ticks(line) % 2 == 0 || Orphans(line) % 2 == 1 || !Exposed(Cuts(ScanLine(Repair(line), resolve)))
  }

  /** A second pass is a no-op exactly on such lines. */
  lemma SecondPassIff(line: string, resolve: Resolver)
    requires CleanTargets(resolve)
    ensures Pass(Pass(line, resolve), resolve) == Pass(line, resolve) <==> Settles(line, resolve)
  {
    hide Scan, Ticks, Orphans, Repair, CleanTargets, Exposed, AllOk;
    SecondRepairIff(line, resolve);
    PassTicks(line, resolve);
    var p := ScanLine(Repair(line), resolve);
    RenderIsOutput(p);
    CutIsLine(Repair(line), Outside(0), false, resolve);
    ExposedIff(Cuts(p));
  }

  /** Lines with an even number of backticks meet the promise. */
  lemma EvenLinesIdempotent(line: string, resolve: Resolver)
    requires CleanTargets(resolve) && Ticks(line) % 2 == 0
    ensures Pass(Pass(line, resolve), resolve) == Pass(line, resolve)
  {
    hide Scan, Ticks, Orphans, CleanTargets, Exposed;
    SecondPassIff(line, resolve);
  }
}
