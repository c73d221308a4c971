// From the frame path to the pixels: when the stored copy of an accepted frame holds every byte
// that statistics and display transform read.
module StoredFrames {
  import opened Bytes
  import opened PixelFormats
  import opened RawImages
  import Core = CoreServer
  import opened FrameSlots
  import Statistics
  import Display = DisplayTransform

  // The row size of the stream's format fits the 32 bits it is computed in.
  predicate RowFits(s: StreamFormat) {
    s.width * BytesPerPixel(s.format) < U32
  }

  // A stored frame as the display transform sees it.
  method TransformStored(f: Frame, s: StreamFormat, data: seq<byte>, c: Display.Config, palette: Display.Palette)
    returns (out: Reading<Display.RgbImage>)
    requires ValidInput(f, s) && Fits(f) && |data| == StorageSize(f)
    ensures out.Refused? <==> !ValidRotation(c.rotation)
    ensures out.Done? <==> ValidRotation(c.rotation) && RowFits(s)
    ensures out.Done? ==> Display.Returns(ImageOf(f, data), c, palette, out.value)
    ensures out.Done? && !Display.FastPathWraps(ImageOf(f, data), c) ==>
              Display.ShowsPicture(out.value, ImageOf(f, data), c, palette)
  {
    hide Display.Painted, AllReadable;
    StoredFrameIsReadable(f, s, data);
    ValidInputSuffices(f, s, c.rotation);
    out := Display.ApplyDisplayTransform(ImageOf(f, data), true, c, palette);
  }

  // Whatever the transform returns for this copy of a frame shows the specified picture.
  ghost predicate CopyIsShown(f: Frame, data: seq<byte>, c: Display.Config, palette: Display.Palette) {
    var img := ImageOf(f, data);
    AllReadable(img)
    && forall out: Display.RgbImage :: Display.Returns(img, c, palette, out) ==> Display.ShowsPicture(out, img, c, palette)
  }

  // Every stored copy of a valid frame is shown right exactly when the row size fits 32 bits and the
  // fast path, if the frame takes it, computes its column offsets without a wrap.
  lemma ShownExactly(f: Frame, s: StreamFormat, c: Display.Config, palette: Display.Palette)
    requires ValidInput(f, s) && Fits(f) && ValidRotation(c.rotation)
    ensures (forall data: seq<byte> :: |data| == StorageSize(f) ==> CopyIsShown(f, data, c, palette)) <==>
            RowFits(s) && !Display.FastPathWraps(ImageOf(f, []), c)
  {
    hide AllReadable, StorageSize, Display.ShowsPicture, ValidInput;
    if RowFits(s) && !Display.FastPathWraps(ImageOf(f, []), c) {
      forall data: seq<byte> | |data| == StorageSize(f)
        ensures CopyIsShown(f, data, c, palette)
      {
        StoredFrameIsReadable(f, s, data);
        SameFormat(f, s);
      }
    } else {
      var bright: seq<byte> := seq(StorageSize(f), _ => 1);
      StoredFrameIsReadable(f, s, bright);
      SameFormat(f, s);
      if RowFits(s) {
        WideCopyIsNotShown(f, s, bright, c, palette);
      }
    }
  }

  lemma WideCopyIsNotShown(f: Frame, s: StreamFormat, bright: seq<byte>, c: Display.Config, palette: Display.Palette)
    requires ValidInput(f, s) && Display.FastPathWraps(ImageOf(f, bright), c)
    requires AllReadable(ImageOf(f, bright)) && forall i :: 0 <= i < |bright| ==> bright[i] == 1
    ensures !CopyIsShown(f, bright, c, palette)
  {
    hide Display.FastRows, Display.Painted, Display.OutputPicture;
    var img := ImageOf(f, bright);
    var out := Display.RgbImage(img.width, img.height, Display.FastRows(img, img.height));
    Display.FastPathIsGeneralPath(img, c, palette);
    assert Inside(img, img.width - 1, 0) && Display.LastSample(img, 0) == 1;
    assert Display.Returns(img, c, palette, out);
  }

  // The narrowest grey frame for which it happens, one row high.
  lemma WideGreyFrame(palette: Display.Palette)
    ensures var f := Frame(true, 1431655766, 1, 1431655766, GRAY8, 0, 0);
            var c := Display.Config(Display.Passthrough, false, 0, 0.0, 1.0, 0, 0);
            && ValidInput(f, StreamFormat(1431655766, 1, GRAY8)) && Fits(f) && Transformable(f, 0)
            && Display.FastPathWraps(ImageOf(f, []), c)
            && !Display.FastPathWraps(ImageOf(f.(width := 1431655765), []), c)
            && !forall data: seq<byte> :: |data| == StorageSize(f) ==> CopyIsShown(f, data, c, palette)
  {
    hide StorageSize, CopyIsShown;
    var f := Frame(true, 1431655766, 1, 1431655766, GRAY8, 0, 0);
    ShownExactly(f, StreamFormat(1431655766, 1, GRAY8), Display.Config(Display.Passthrough, false, 0, 0.0, 1.0, 0, 0), palette);
  }

  // And as the statistics see it.
  method MeasureStored(f: Frame, s: StreamFormat, data: seq<byte>) returns (r: Reading<Statistics.Summary>)
    requires ValidInput(f, s) && Fits(f) && |data| == StorageSize(f)
    ensures !r.Refused? && (r.Done? <==> RowFits(s))
    ensures r.Done? ==>
              var ls := Statistics.Luminances(ImageOf(f, data), f.height);
              ls != [] && Statistics.Describes(r.value, ls)
  {
    hide Statistics.Describes, AllReadable;
    StoredFrameIsReadable(f, s, data);
    ValidInputSuffices(f, s, 0);
    r := Statistics.CalculateRawFrameStatistics(ImageOf(f, data), true);
  }

  // In every run of a stream, the stored copy of a frame it published, or holds pending, covers the
  // pixels exactly when the row size of the stream's format fits 32 bits.
  lemma StoredCopiesAreReadable(format: StreamFormat, events: seq<SlotEvent>, f: Frame, data: seq<byte>)
    requires SlotFitting(events)
    requires var r := ExecSlot(StartSlot(format), events);
             r.m.pending == Some(f) || exists k :: 0 <= k < |r.published| && r.published[k].frame == f
    requires |data| == StorageSize(f)
    ensures AllReadable(ImageOf(f, data)) <==> RowFits(format)
  {
    hide ExecSlot, AllReadable, Core.ShowsInOrder, StorageSize, ValidInput;
    ManagedConservation(format, events);
    FormatStays(StartSlot(format), events);
    var r := ExecSlot(StartSlot(format), events);
    StoredFrameIsReadable(f, format, data);
    SameFormat(f, format);
  }

  lemma SameFormat(f: Frame, s: StreamFormat)
    requires ValidInput(f, s)
    ensures f.width == s.width && f.format == s.format
  {
  }
}
