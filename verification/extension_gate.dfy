/**
 The file-type gate of `GreyscaleConverter.handleChange`: the MIME type of the
 first selected file picks an image extension that the converter remembers,
 and the file is refused only when no extension is remembered afterwards.

 An unsupported type does not clear an extension stored by an earlier
 selection, so once a PNG or JPEG has been accepted every later selection is
 accepted too, with the old extension.
 */
module ExtensionGate {
  import opened Wrappers

  /** The two image extensions the converter knows. */
  datatype Extension = Png | Jpeg

  /** The MIME types that select them. */
  const PngType: string := "image/png"
  const JpegType: string := "image/jpeg"

  /** The converter's one piece of state: the remembered extension, undefined until one is set. */
  datatype Converter = Converter(imageExtension: Option<Extension>)

  function GetImageExtension(conv: Converter): Option<Extension>
  {
    conv.imageExtension
  }

  /** Setting the extension: the getter returns it afterwards. */
  function SetImageExtension(conv: Converter, ext: Extension): (r: Converter)
    ensures GetImageExtension(r) == Some(ext)
  {
    Converter(Some(ext))
  }

  /** A freshly constructed converter remembers no extension. */
  const Initial: Converter := Converter(None)

  /**
   A `change` event as `handleChange` sees it: the target is not a file
   input, the input has no file list, or the list of the selected files'
   MIME types (possibly empty).
   */
  datatype ChangeEvent =
    | NotFileInput
    | NoFileList
    | Files(types: seq<string>)

  /**
   What `handleChange` does with an event: returns early, fails reading the
   type of a first file that does not exist, alerts "Invalid image type", or
   goes on to read the file.
   */
  datatype Outcome = Ignored | TypeError | Rejected | Accepted

  /** A MIME type the gate recognises. */
  predicate Supported(mime: string)
  {
    mime == PngType || mime == JpegType
  }

  /** The extension a MIME type names, if any. */
  function ExtensionOf(mime: string): (r: Option<Extension>)
    ensures r.Some? <==> Supported(mime)
    ensures r == Some(Png) <==> mime == PngType
    ensures r == Some(Jpeg) <==> mime == JpegType
  {
    if mime == PngType then Some(Png)
    else if mime == JpegType then Some(Jpeg)
    else None
  }

  /**
   The `switch` on the first file's type: a PNG or JPEG type stores its
   extension; any other type leaves the stored extension as it was.
   */
  function SelectExtension(conv: Converter, mime: string): (r: Converter)
    ensures mime == PngType ==> GetImageExtension(r) == Some(Png)
    ensures mime == JpegType ==> GetImageExtension(r) == Some(Jpeg)
    ensures !Supported(mime) ==> r == conv
  {
    match ExtensionOf(mime)
    case Some(ext) => SetImageExtension(conv, ext)
    case None => conv
  }

  /** The event carries a first file. */
  predicate HasFile(event: ChangeEvent)
  {
    event.Files? && |event.types| > 0
  }

  /** The extension an event selects: that of its first file's type, if supported. */
  function Announced(event: ChangeEvent): Option<Extension>
  {
    if HasFile(event) then ExtensionOf(event.types[0]) else None
  }

  /** One run of `handleChange`: the converter afterwards and what became of the event. */
  function HandleChange(conv: Converter, event: ChangeEvent): (r: (Converter, Outcome))
    ensures !event.Files? ==> r == (conv, Ignored)
    ensures event.Files? && |event.types| == 0 ==> r == (conv, TypeError)
    ensures r.1 == Rejected <==>
              HasFile(event) && conv.imageExtension.None? && !Supported(event.types[0])
    ensures r.1 == Rejected ==> r.0 == conv
    ensures r.1 == Accepted <==> HasFile(event) && r.0.imageExtension.Some?
    ensures r.0.imageExtension == if Announced(event).Some? then Announced(event) else conv.imageExtension
  {
    match event
    case NotFileInput => (conv, Ignored)
    case NoFileList => (conv, Ignored)
    case Files(types) =>
      if |types| == 0 then (conv, TypeError)
      else
        var next := SelectExtension(conv, types[0]);
        if GetImageExtension(next).None? then (next, Rejected)
        else (next, Accepted)
  }

  /** A sequence of events handled in order: the final converter and each event's outcome. */
  function Run(conv: Converter, events: seq<ChangeEvent>): (r: (Converter, seq<Outcome>))
    ensures |r.1| == |events|
    decreases |events|
  {
    if |events| == 0 then (conv, [])
    else
      var (next, outcome) := HandleChange(conv, events[0]);
      var (last, outcomes) := Run(next, events[1..]);
      (last, [outcome] + outcomes)
  }

  /**
   The reference for the remembered extension: the one announced by the
   latest event that announced one, or `init` when none did.
   */
  function LastAnnounced(events: seq<ChangeEvent>, init: Option<Extension>): Option<Extension>
    decreases |events|
  {
    if |events| == 0 then init
    else if Announced(events[|events| - 1]).Some? then Announced(events[|events| - 1])
    else LastAnnounced(events[..|events| - 1], init)
  }

  /** Handling one more event extends the run by that event's outcome. */
  lemma {:induction false} RunSnoc(conv: Converter, events: seq<ChangeEvent>, event: ChangeEvent)
    ensures Run(conv, events + [event]).0 == HandleChange(Run(conv, events).0, event).0
    ensures Run(conv, events + [event]).1 == Run(conv, events).1 + [HandleChange(Run(conv, events).0, event).1]
    decreases |events|
  {
    if |events| > 0 {
      assert (events + [event])[1..] == events[1..] + [event];
      RunSnoc(HandleChange(conv, events[0]).0, events[1..], event);
    }
  }

  /** The outcome of event `j` is decided by the converter the first `j` events left behind. */
  lemma {:induction false} OutcomeAt(conv: Converter, events: seq<ChangeEvent>, j: nat)
    requires j < |events|
    ensures Run(conv, events).1[j] == HandleChange(Run(conv, events[..j]).0, events[j]).1
    decreases j
  {
    if j > 0 {
      assert events[1..][..j - 1] == events[1..j];
      OutcomeAt(HandleChange(conv, events[0]).0, events[1..], j - 1);
    }
  }

  /**
   After any sequence of events the remembered extension is the one the
   latest announcing event named, or the starting one if no event did.
   */
  lemma {:induction false} StoredIsLastAnnounced(conv: Converter, events: seq<ChangeEvent>)
    ensures Run(conv, events).0.imageExtension == LastAnnounced(events, conv.imageExtension)
    decreases |events|
  {
    if |events| > 0 {
      var init := events[..|events| - 1];
      assert events == init + [events[|events| - 1]];
      RunSnoc(conv, init, events[|events| - 1]);
      StoredIsLastAnnounced(conv, init);
    }
  }

  /** No extension is remembered from `init = None` exactly when no event announced one. */
  lemma {:induction false} NothingAnnounced(events: seq<ChangeEvent>)
    ensures LastAnnounced(events, None).None? <==>
              forall i :: 0 <= i < |events| ==> Announced(events[i]).None?
    decreases |events|
  {
    if |events| > 0 {
      var init := events[..|events| - 1];
      NothingAnnounced(init);
      assert forall i :: 0 <= i < |init| ==> init[i] == events[i];
    }
  }

  /**
   Starting from a fresh converter, an event is rejected exactly when it
   carries a file and neither it nor any earlier event announced a PNG or
   JPEG type.
   */
  lemma RejectedUntilFirstSupported(events: seq<ChangeEvent>, j: nat)
    requires j < |events|
    ensures Run(Initial, events).1[j] == Rejected <==>
              HasFile(events[j]) && forall i :: 0 <= i <= j ==> Announced(events[i]).None?
  {
    OutcomeAt(Initial, events, j);
    StoredIsLastAnnounced(Initial, events[..j]);
    NothingAnnounced(events[..j]);
    assert forall i :: 0 <= i < j ==> events[..j][i] == events[i];
  }

  /**
   Once an extension is remembered, no later event is rejected and the
   extension stays remembered.
   */
  lemma {:induction false} AcceptedStaysAccepted(conv: Converter, events: seq<ChangeEvent>)
    requires conv.imageExtension.Some?
    ensures Run(conv, events).0.imageExtension.Some?
    ensures forall j :: 0 <= j < |events| ==> Run(conv, events).1[j] != Rejected
    decreases |events|
  {
    if |events| > 0 {
      AcceptedStaysAccepted(HandleChange(conv, events[0]).0, events[1..]);
    }
  }

  /**
   A GIF is rejected by a fresh converter but accepted by one that already
   holds the PNG extension, which it keeps.
   */
  lemma GifAcceptedAfterPng()
    ensures HandleChange(Initial, Files(["image/gif"])) == (Initial, Rejected)
    ensures HandleChange(Converter(Some(Png)), Files(["image/gif"]))
            == (Converter(Some(Png)), Accepted)
  {
    var gif := "image/gif";
    assert gif[6] != PngType[6] && gif[6] != JpegType[6];
  }
}
