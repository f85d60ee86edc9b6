/** From a directory tree through the builder's image to both readers and back. */
module RivFsWhole {
  import opened Bytes
  import opened FileTree
  import opened RivLayout
  import GenFs
  import RivFsData
  import RivFsDriver

  lemma {:induction false} CountedNamesValid(d: Dir)
    requires ValidNames(d)
    ensures ValidNames(CountedView(d))
  {
    var v := CountedView(d);
    forall k | 0 <= k < |v.subs|
      ensures v.subs[k].name != [] && SLASH !in v.subs[k].name && ValidNames(v.subs[k].dir)
    {
      CountedNamesValid(d.subs[k].dir);
    }
  }

  lemma {:induction false} ValidAreNonEmpty(d: Dir)
    requires ValidNames(d)
    ensures NonEmptyNames(d)
  {
    forall k | 0 <= k < |d.subs| ensures d.subs[k].name != [] && NonEmptyNames(d.subs[k].dir) {
      ValidAreNonEmpty(d.subs[k].dir);
    }
  }

  /** What `open` finds in the image of any tree, on any path string. */
  lemma OpenOnImage(d: Dir, path: seq<Byte>)
    requires ValidNames(d)
    ensures TreeOpen(CountedView(d), path) == if OpenResolves(path) then TreeFile(CountedView(d), Comps(path)) else None
    ensures SmallDirs(d) ==> CountedView(d) == d
  {
    CountedNamesValid(d);
    OpenMeans(CountedView(d), path);
    CountedViewIsWhole(d);
  }

  /** Builds an image, reads it back with the reference reader and looks a path up in the result, then
      opens and reads the same path through the driver. Where the image fits the address space both see
      the tree that went in; they give the same bytes for every path the driver's `open` resolves. */
  method BuildAndRead(root: Dir, memloc: nat, path: seq<Byte>, limit: nat)
    returns (img: seq<Byte>, tree: RivFsData.Result<Dir>, found: Option<FileNode>, contents: Option<seq<Byte>>)
    requires ValidNames(root) && SmallDirs(root) && HeightAtMost(root, limit)
    ensures |img| < TWO32 && memloc + |img| <= TWO32 ==>
      && tree == RivFsData.Ok(root)
      && found == TreeFile(root, Comps(path))
      && contents == if OpenResolves(path) && found.Some? then Some(found.value.data) else None
  {
    img := GenFs.Generate(root);
    tree, found, contents := RivFsData.Err(RivFsData.Corrupt), None, None;
    if |img| >= TWO32 || memloc + |img| > TWO32 {
      return;
    }
    ValidAreNonEmpty(root);
    OpenOnImage(root, path);
    hide ValidNames;
    hide SmallDirs;
    hide HeightAtMost;
    hide NonEmptyNames;
    hide CountedView;
    hide TreeFile;
    hide TreeOpen;
    hide OpenResolves;
    tree := RivFsData.ReadImage(img, limit);
    found := RivFsData.Find(tree.value, path);
    var fs := new RivFsDriver.RivFs(memloc, img);
    HeaderReadable(img, root);
    hide ImageOf;
    var ok := fs.CheckCorrectness();
    var f := fs.Open(path, root);
    if f.Some? {
      ghost var node := TreeOpen(CountedView(root), path).value;
      var size := fs.Filesize(f.value, node);
      var obuf := new Byte[size + 1];
      fs.Read(f.value, obuf, node);
      contents := Some(obuf[..size]);
    }
  }

  lemma HeaderReadable(img: seq<Byte>, d: Dir)
    requires ImageOf(img, d)
    ensures |img| >= HEADER_SIZE && U32At(img, 9) + FPH_SIZE <= |img|
  {
  }
}
