/** Blocks of any track, written by RenderData and read back by ReadData (libmatroska/src/KaxBlock.cpp). */
module BlockRoundTrip {
  import opened Wrappers
  import opened Bytes
  import opened Lacing
  import opened LacingProofs
  import opened LacingChoice
  import opened LacingTrack128

  lemma TooManyFrames(b: Block, simple: bool, keyframe: bool, discardable: bool)
    requires b.track < 0x4000 && |b.frames| > 255 && |Rendered(b, simple)| < TWO_31
    ensures !Survives(b, simple, keyframe, discardable)
  {
    hide Rendered, ReadLace, Cut, LacingOf, Concat;
    var data := Rendered(b, simple);
    if Survives(b, simple, keyframe, discardable) {
      ParseConserves(data, simple, keyframe, discardable, Restored(b, simple, keyframe, discardable));
    }
  }

  /**
   A block survives writing and reading, in all its fields, exactly if it has 1 to 255 frames and its
   lacing can represent their sizes; on track 0x80, exactly if it is one of the laces of `SurvivesIff`.
   */
  lemma RoundTripIff(b: Block, simple: bool, keyframe: bool, discardable: bool)
    requires b.track < 0x4000 && |Rendered(b, simple)| < TWO_31
    ensures Survives(b, simple, keyframe, discardable) <==>
      if b.track != 0x80 then 1 <= |b.frames| <= 255 && LaceOk(Resolved(b.lacing, b.frames), b.frames)
      else Resolved(b.lacing, b.frames) == Ebml && Lucky(b.frames) && FlagsFit(b, simple)
  {
    hide Rendered, Resolved, FlagsFit;
    if |b.frames| > 255 {
      TooManyFrames(b, simple, keyframe, discardable);
    } else if b.track == 0x80 {
      SurvivesIff(b, simple, keyframe, discardable);
    } else if |b.frames| == 0 {
      NothingRendered(b, simple);
    } else {
      OtherTracksIff(b, simple, keyframe, discardable);
    }
  }

  lemma NothingRendered(b: Block, simple: bool)
    requires b.track < 0x4000 && b.frames == []
    ensures Rendered(b, simple) == [] && !LaceOk(Resolved(b.lacing, b.frames), b.frames)
  {
  }
}
