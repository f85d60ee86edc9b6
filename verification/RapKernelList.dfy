/** The functions the kernel publishes, and what the scheduler finds when it looks them up by name. */
module RapKernelList {
  import opened Bytes
  import opened Rap
  import opened RapPrinter
  import opened RapReaders

  /** The list `init` fills, for any eleven addresses. */
  function KernelFunctions(a: seq<U32>): (fs: seq<Entry>)
    requires |a| == 11
    ensures |fs| == 11
  {
    [ Entry("putPixel", [Param("u32", "argb"), Param("u32", "x"), Param("u32", "y")], a[0]),
      Entry("getScreenWidth", [], a[1]),
      Entry("getFbPhysAddr", [], a[2]),
      Entry("getScreenHeight", [], a[3]),
      Entry("getFbSizeBytes", [], a[4]),
      Entry("getFbPitch", [], a[5]),
      Entry("loadProcess", [Param("str", "fp"), Param("str", "procname"), Param("u8", "enum_ProcessPriveledgeLevel_priv")], a[6]),
      Entry("runProcess", [Param("ptr", "proc")], a[7]),
      Entry("getProcessList", [], a[8]),
      Entry("procCtxtSwitch", [Param("ptr", "proc")], a[9]),
      Entry("getpid", [], a[10]) ]
  }

  lemma ScreenNamesClean()
    ensures Clean("putPixel") && Clean("getScreenWidth") && Clean("getScreenHeight")
  {
  }

  lemma FramebufferNamesClean()
    ensures Clean("getFbPhysAddr") && Clean("getFbSizeBytes") && Clean("getFbPitch")
  {
  }

  lemma ProcessNamesClean()
    ensures Clean("loadProcess") && Clean("runProcess") && Clean("getProcessList")
    ensures Clean("procCtxtSwitch") && Clean("getpid")
  {
  }

  lemma ParamNamesClean()
    ensures Clean("str") && Clean("fp") && Clean("procname")
    ensures Clean("u8") && Clean("ptr") && Clean("proc") && Clean("u32") && Clean("argb") && Clean("x") && Clean("y")
  {
  }

  lemma LongNameClean()
    ensures Clean("enum_ProcessPriveledgeLevel_priv")
  {
  }

  lemma ListIsWellFormed(a: seq<U32>)
    requires |a| == 11
    ensures WellFormed(KernelFunctions(a))
  {
    ScreenNamesClean();
    FramebufferNamesClean();
    ProcessNamesClean();
    ParamNamesClean();
    LongNameClean();
    hide Clean;
  }

  lemma ListIsReadable(a: seq<U32>)
    requires |a| == 11
    ensures UserReadable(KernelFunctions(a)) && !AllTakeParameters(KernelFunctions(a))
  {
    assert KernelFunctions(a)[1].params == [];
  }

  predicate Short(f: Entry) {
    |f.name| <= 40 && |f.params| <= 4 && forall i | 0 <= i < |f.params| :: |f.params[i].ty| <= 40 && |f.params[i].name| <= 40
  }

  lemma {:induction false} ParamsTextShort(ps: seq<Param>)
    requires forall i | 0 <= i < |ps| :: |ps[i].ty| <= 40 && |ps[i].name| <= 40
    ensures |ParamsText(ps)| <= 82 * |ps|
  {
    if ps != [] {
      ParamsTextShort(ps[1..]);
    }
  }

  lemma {:induction false} PrintedShort(fs: seq<Entry>)
    requires forall i | 0 <= i < |fs| :: Short(fs[i])
    ensures |Printed(fs)| <= 400 * |fs|
  {
    if fs != [] {
      ParamsTextShort(fs[0].params);
      DigitsFit(fs[0].addr);
      PrintedShort(fs[1..]);
    }
  }

  lemma ListIsShort(a: seq<U32>)
    requires |a| == 11
    ensures |Printed(KernelFunctions(a))| < 0x1_0000
  {
    PrintedShort(KernelFunctions(a));
    hide Printed;
  }

  /** The published text fits the scheduler's buffer and gives it every function; the kernel's own
      parser does not get the list back from it. */
  lemma SchedulerReadsKernelList(a: seq<U32>)
    requires |a| == 11
    ensures var text := Printed(KernelFunctions(a));
      && |text| < 0x1_0000
      && UserRap(text) == Some(KernelFunctions(a))
      && KernelRap(text) != Some(KernelFunctions(a))
  {
    var fs := KernelFunctions(a);
    ListIsWellFormed(a);
    ListIsReadable(a);
    ListIsShort(a);
    UserRecoversExactly(fs);
    KernelRecoversExactly(fs);
    hide *;
  }

  /** The addresses the scheduler looks up at its start are those of the functions it means. */
  lemma SchedulerLookups(a: seq<U32>)
    requires |a| == 11
    ensures var fs := KernelFunctions(a);
      && AddrOf(fs, "loadProcess") == a[6] && AddrOf(fs, "runProcess") == a[7] && AddrOf(fs, "getProcessList") == a[8]
      && AddrOf(fs, "procCtxtSwitch") == a[9] && AddrOf(fs, "getpid") == a[10]
  {
    var fs := KernelFunctions(a);
    FirstNamed(fs, 6);
    FirstNamed(fs, 7);
    FirstNamed(fs, 8);
    FirstNamed(fs, 9);
    FirstNamed(fs, 10);
    hide AddrOf;
  }
}
