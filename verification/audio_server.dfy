/** The `"cut"` request of the audio server and the file rule of its metadata list. Sockets,
    logging, temporary files and audio decoding are outside the model: whether the file exists,
    the parsed times and the audio length in milliseconds are inputs. */
module AudioServer {
  import opened Wrappers

  /** The outcome of a cut request: the millisecond range to slice, or the error sent back. */
  datatype CutResult =
    | Cut(startMs: int, endMs: int)
    | FileNotFound
    | NotIntegers
    | NegativeTime
    | StartOutOfRange(duration: int)
    | EndOutOfRange(duration: int)
    | StartNotBeforeEnd

  /** The whole seconds of an audio of `lengthMs` milliseconds (`len(audio) // 1000`). */
  function Duration(lengthMs: nat): (d: nat)
    ensures d * 1000 <= lengthMs < (d + 1) * 1000
  {
    lengthMs / 1000
  }

  /** The checks of the `"cut"` branch in their order. `start` and `end` are `None` when
      `int()` raises ValueError on them. */
  function ValidateCut(fileExists: bool, start: Option<int>, end: Option<int>, lengthMs: nat): (r: CutResult)
    ensures r.Cut? <==>
      fileExists && start.Some? && end.Some? && 0 <= start.value < end.value <= Duration(lengthMs)
    ensures r.Cut? ==> r == Cut(start.value * 1000, end.value * 1000)
    ensures r.Cut? ==> 0 <= r.startMs < r.endMs <= lengthMs
  {
    if !fileExists then FileNotFound
    else if start.None? || end.None? then NotIntegers
    else
      var s, e, duration := start.value, end.value, Duration(lengthMs);
      if s < 0 || e < 0 then NegativeTime
      else if s >= duration then StartOutOfRange(duration)
      else if e > duration then EndOutOfRange(duration)
      else if s >= e then StartNotBeforeEnd
      else Cut(s * 1000, e * 1000)
  }

  /** Each rejection happens exactly when every earlier check passed and its own fails: a missing
      file before the times are parsed, unparsable times before the duration is looked at,
      negative times before the bounds, the start bound before the end bound, and the order of
      start and end last. */
  lemma RejectionOrder(fileExists: bool, start: Option<int>, end: Option<int>, lengthMs: nat)
    ensures ValidateCut(fileExists, start, end, lengthMs) == FileNotFound <==> !fileExists
    ensures ValidateCut(fileExists, start, end, lengthMs) == NotIntegers <==>
      fileExists && (start.None? || end.None?)
    ensures ValidateCut(fileExists, start, end, lengthMs) == NegativeTime <==>
      fileExists && start.Some? && end.Some? && (start.value < 0 || end.value < 0)
    ensures ValidateCut(fileExists, start, end, lengthMs).StartOutOfRange? <==>
      fileExists && start.Some? && end.Some? && start.value >= 0 && end.value >= 0 &&
      start.value >= Duration(lengthMs)
    ensures ValidateCut(fileExists, start, end, lengthMs).EndOutOfRange? <==>
      fileExists && start.Some? && end.Some? && 0 <= start.value < Duration(lengthMs) &&
      end.value >= 0 && end.value > Duration(lengthMs)
    ensures ValidateCut(fileExists, start, end, lengthMs) == StartNotBeforeEnd <==>
      fileExists && start.Some? && end.Some? && 0 <= end.value <= start.value < Duration(lengthMs)
    ensures ValidateCut(fileExists, start, end, lengthMs).StartOutOfRange? ||
            ValidateCut(fileExists, start, end, lengthMs).EndOutOfRange? ==>
      ValidateCut(fileExists, start, end, lengthMs).duration == Duration(lengthMs)
  {
  }

  // ---------------------------------------------------------------------------------------
  // Metadata

  /** `name.endswith(suffix)` */
  predicate EndsWith(name: string, suffix: string): (r: bool)
    ensures r ==> |suffix| <= |name| && name == name[..|name| - |suffix|] + suffix
  {
    |suffix| <= |name| && name[|name| - |suffix|..] == suffix
  }

  /** The file filter of `generate_metadata`. */
  predicate IsListed(name: string): (r: bool)
    ensures r ==> |name| >= 4 && name[|name| - 4] == '.'
  {
    EndsWith(name, ".mp3") || EndsWith(name, ".wav")
  }

  /** `name.split('.')[-1]`: the text after the last dot, or the whole name when it has none. */
  function Format(name: string): (f: string)
    ensures '.' !in f
    ensures EndsWith(name, f)
    ensures |f| < |name| ==> name[|name| - |f| - 1] == '.'
  {
    if name == [] then ""
    else if name[|name| - 1] == '.' then ""
    else
      var init := name[..|name| - 1];
      var f := Format(init) + [name[|name| - 1]];
      assert name[|name| - |f|..] == init[|init| - |f| + 1..] + [name[|name| - 1]];
      f
  }

  /** The text after the last dot is determined by it: a dot followed by a dot-free tail gives
      that tail. */
  lemma {:induction false} FormatAfterDot(stem: string, ext: string)
    requires '.' !in ext
    ensures Format(stem + "." + ext) == ext
  {
    var name := stem + "." + ext;
    if ext == [] {
      assert name[|name| - 1] == '.';
    } else {
      var init := ext[..|ext| - 1];
      assert name[..|name| - 1] == stem + "." + init;
      assert name[|name| - 1] == ext[|ext| - 1] != '.';
      FormatAfterDot(stem, init);
      assert ext == init + [ext[|ext| - 1]];
    }
  }

  /** A listed file has format `mp3` or `wav`. */
  lemma ListedFormat(name: string)
    requires IsListed(name)
    ensures Format(name) == "mp3" || Format(name) == "wav"
  {
    var stem := name[..|name| - 4];
    var ext := name[|name| - 3..];
    assert name == stem + "." + ext;
    FormatAfterDot(stem, ext);
  }

  /** One entry of the metadata list, without the duration. */
  datatype Entry = Entry(name: string, format: string)

  /** The entries `generate_metadata` writes for the directory listing `files`, in listing order. */
  function Catalogue(files: seq<string>): (entries: seq<Entry>)
    ensures |entries| <= |files|
    ensures forall e :: e in entries ==> e.name in files && IsListed(e.name) && e.format == Format(e.name)
    ensures forall f :: f in files && IsListed(f) ==> Entry(f, Format(f)) in entries
  {
    if files == [] then []
    else
      var last := files[|files| - 1];
      var init := files[..|files| - 1];
      assert files == init + [last];
      Catalogue(init) + (if IsListed(last) then [Entry(last, Format(last))] else [])
  }

  /** Every entry of the metadata list has format `mp3` or `wav`. */
  lemma CatalogueFormats(files: seq<string>)
    ensures forall e :: e in Catalogue(files) ==> e.format == "mp3" || e.format == "wav"
  {
    forall e | e in Catalogue(files)
      ensures e.format == "mp3" || e.format == "wav"
    {
      ListedFormat(e.name);
    }
  }

  /** The loop of `generate_metadata` over the directory listing. */
  method GenerateMetadata(files: seq<string>) returns (metadata: seq<Entry>)
    ensures metadata == Catalogue(files)
  {
    metadata := [];
    for i := 0 to |files|
      invariant metadata == Catalogue(files[..i])
    {
      var file := files[i];
      assert files[..i + 1][..i] == files[..i];
      if EndsWith(file, ".mp3") || EndsWith(file, ".wav") {
        metadata := metadata + [Entry(file, Format(file))];
      }
    }
    assert files[..|files|] == files;
  }
}
