/** `Presser`: registers the compressors, picks the best one, writes the
    payload, fills the loader template from the cloned metadata, derives the
    output path, and runs the compiler. File I/O appears as an effect log;
    the compiler is a function parameter. */
module Presser {
  import opened Bytes
  import opened Results
  import opened Text
  import opened Codecs
  import opened Selection
  import opened Cloner
  import LzmaFrame

  /** `LoadCompressors`: GZIP, QuickLZ, LZMA, in that order. */
  function LoadCompressors(suite: CodecSuite): (cs: seq<Compressor>)
    ensures |cs| == 3
    ensures cs[0].kind == Gzip && cs[1].kind == QuickLz && cs[2].kind == Lzma
    ensures cs[2].name == "LZMA"
    ensures forall x :: cs[0].compress(x) == suite.gzipCompress(x)
    ensures forall x :: cs[1].compress(x) == suite.quickLzCompress(x)
    ensures forall x :: cs[2].compress(x) == LzmaFrame.Compress(suite.lzmaEncoder, x)
  {
    [Compressor(Gzip, suite.gzipName, suite.gzipCompress),
     Compressor(QuickLz, suite.quickLzName, suite.quickLzCompress),
     LzmaCompressor(suite.lzmaEncoder)]
  }

  /** Each codec's marker is its position in the registration order. */
  lemma MarkerIsRegistrationIndex(suite: CodecSuite, i: nat)
    requires i < 3
    ensures Marker(LoadCompressors(suite)[i].kind) == i
  {
  }

  // ----- CopyAssembly -----

  function Attribute(name: string, value: string): string {
    "[assembly: " + name + "(\"" + value + "\")]"
  }

  /** One attribute line to fill: its empty form is replaced by the form
      holding `value`. */
  datatype Slot = Slot(attribute: string, value: string)

  /** The eight replacements, in source order. The Guid slot takes a fresh
      identifier, an input of the model. */
  function AssemblySlots(m: Metadata, guid: string): seq<Slot> {
    [Slot("AssemblyTitle", m.title),
     Slot("AssemblyDescription", m.description),
     Slot("AssemblyCompany", m.company),
     Slot("AssemblyProduct", m.product),
     Slot("AssemblyCopyright", m.copyright),
     Slot("Guid", guid),
     Slot("AssemblyVersion", m.version),
     Slot("AssemblyFileVersion", m.version)]
  }

  /** The value the first slot of that attribute carries. */
  function SlotValue(slots: seq<Slot>, attribute: string): Option<string> {
    if |slots| == 0 then None
    else if slots[0].attribute == attribute then Some(slots[0].value)
    else SlotValue(slots[1..], attribute)
  }

  lemma {:induction false} SlotValueAt(slots: seq<Slot>, attribute: string, k: nat)
    requires k < |slots| && slots[k].attribute == attribute
    requires forall j :: 0 <= j < k ==> slots[j].attribute != attribute
    ensures SlotValue(slots, attribute) == Some(slots[k].value)
  {
    if k > 0 {
      SlotValueAt(slots[1..], attribute, k - 1);
    }
  }

  lemma {:induction false} SlotValueAbsent(slots: seq<Slot>, attribute: string)
    requires forall j :: 0 <= j < |slots| ==> slots[j].attribute != attribute
    ensures SlotValue(slots, attribute) == None
  {
    if |slots| > 0 {
      SlotValueAbsent(slots[1..], attribute);
    }
  }

  /** Title, Description, Company, Product and Copyright take the cloner's
      Title, FileDescription, CompanyName, ProductName and LegalCopyright;
      AssemblyVersion and AssemblyFileVersion both take FileVersion; Guid
      takes the fresh identifier; Trademark is not written. */
  lemma AssemblySlotValues(info: VersionInfo, guid: string)
    ensures var m := Clone(info);
            m.Some? ==>
              var slots := AssemblySlots(m.value, guid);
              && SlotValue(slots, "AssemblyTitle") == Title(info)
              && SlotValue(slots, "AssemblyDescription") == Some(Field(info, FileDescription))
              && SlotValue(slots, "AssemblyCompany") == Some(Field(info, CompanyName))
              && SlotValue(slots, "AssemblyProduct") == Some(Field(info, ProductName))
              && SlotValue(slots, "AssemblyCopyright") == Some(Field(info, LegalCopyright))
              && SlotValue(slots, "Guid") == Some(guid)
              && SlotValue(slots, "AssemblyVersion") == Some(Field(info, FileVersion))
              && SlotValue(slots, "AssemblyFileVersion") == Some(Field(info, FileVersion))
              && SlotValue(slots, "AssemblyTrademark") == None
  {
    if Clone(info).Some? {
      SlotsOfMetadata(Clone(info).value, guid);
    }
  }

  lemma SlotsOfMetadata(m: Metadata, guid: string)
    ensures var slots := AssemblySlots(m, guid);
            && SlotValue(slots, "AssemblyTitle") == Some(m.title)
            && SlotValue(slots, "AssemblyDescription") == Some(m.description)
            && SlotValue(slots, "AssemblyCompany") == Some(m.company)
            && SlotValue(slots, "AssemblyProduct") == Some(m.product)
            && SlotValue(slots, "AssemblyCopyright") == Some(m.copyright)
            && SlotValue(slots, "Guid") == Some(guid)
            && SlotValue(slots, "AssemblyVersion") == Some(m.version)
            && SlotValue(slots, "AssemblyFileVersion") == Some(m.version)
            && SlotValue(slots, "AssemblyTrademark") == None
  {
    var slots := AssemblySlots(m, guid);
    SlotValueAt(slots, "AssemblyTitle", 0);
    SlotValueAt(slots, "AssemblyDescription", 1);
    SlotValueAt(slots, "AssemblyCompany", 2);
    SlotValueAt(slots, "AssemblyProduct", 3);
    SlotValueAt(slots, "AssemblyCopyright", 4);
    SlotValueAt(slots, "Guid", 5);
    SlotValueAt(slots, "AssemblyVersion", 6);
    SlotValueAt(slots, "AssemblyFileVersion", 7);
    SlotValueAbsent(slots, "AssemblyTrademark");
  }

  function FillSlots(src: string, slots: seq<Slot>): string
    decreases |slots|
  {
    if |slots| == 0 then src
    else
      var s := slots[0];
      FillSlots(ReplaceAll(src, Attribute(s.attribute, ""), Attribute(s.attribute, s.value)), slots[1..])
  }

  /** `CopyAssembly`, less the icon file it saves. */
  function CopyAssembly(src: string, m: Metadata, guid: string): string {
    FillSlots(src, AssemblySlots(m, guid))
  }

  /** A template holding none of the empty attribute forms is left as it is. */
  lemma {:induction false} FillSlotsWithoutPlaceholders(src: string, slots: seq<Slot>)
    requires forall i :: 0 <= i < |slots| ==> !Contains(src, Attribute(slots[i].attribute, ""))
    ensures FillSlots(src, slots) == src
  {
    if |slots| > 0 {
      ReplaceAbsent(src, Attribute(slots[0].attribute, ""), Attribute(slots[0].attribute, slots[0].value));
      FillSlotsWithoutPlaceholders(src, slots[1..]);
    }
  }

  /** A slot whose value is empty leaves its placeholder in place: filling
      with it gives what filling without it gives. */
  lemma {:induction false} EmptyValuesKeepPlaceholders(src: string, slots: seq<Slot>, k: nat)
    requires k < |slots| && slots[k].value == ""
    ensures FillSlots(src, slots) == FillSlots(src, slots[..k] + slots[k + 1..])
    decreases |slots|
  {
    var s := slots[0];
    var next := ReplaceAll(src, Attribute(s.attribute, ""), Attribute(s.attribute, s.value));
    if k == 0 {
      ReplaceWithSelf(src, Attribute(s.attribute, ""));
      assert slots[..0] + slots[1..] == slots[1..];
    } else {
      EmptyValuesKeepPlaceholders(next, slots[1..], k - 1);
      var without := slots[..k] + slots[k + 1..];
      assert without[0] == s;
      assert without[1..] == slots[1..][..k - 1] + slots[1..][k..];
    }
  }

  /** Each step of `CopyAssembly` cuts the text at every empty form of the
      slot's attribute and rejoins the pieces with the filled form. */
  lemma FillStepIsSplitJoin(src: string, s: Slot)
    ensures var segs := Split(src, Attribute(s.attribute, ""));
            && src == Join(segs, Attribute(s.attribute, ""))
            && FillSlots(src, [s]) == Join(segs, Attribute(s.attribute, s.value))
  {
    ReplaceAllIsSplitJoin(src, Attribute(s.attribute, ""), Attribute(s.attribute, s.value));
  }

  // ----- Output path -----

  const ExeExtension: string := ".exe"
  const PressedSuffix: string := "_bytepressed"

  /** The file name as the source derives it: `Name.Replace(".exe",
      "_bytepressed.exe")`, an ordinal, case-sensitive replacement of every
      occurrence. */
  function OutputFileNameAsWritten(name: string): (r: string)
    ensures r == name <==> !Contains(name, ExeExtension)
  {
    var r := ReplaceAll(name, ExeExtension, PressedSuffix + ExeExtension);
    LongerReplacementGrows(name, ExeExtension, PressedSuffix + ExeExtension);
    if !Contains(name, ExeExtension) then
      ReplaceAbsent(name, ExeExtension, PressedSuffix + ExeExtension);
      r
    else r
  }

  function LowerAscii(c: char): char {
    if 'A' <= c <= 'Z' then (c as int + 32) as char else c
  }

  /** The test the command line applies before packing:
      `EndsWith(".exe", InvariantCultureIgnoreCase)`. */
  predicate EndsWithExeIgnoringCase(name: string) {
    |name| >= 4 && forall i :: 0 <= i < 4 ==> LowerAscii(name[|name| - 4 + i]) == ExeExtension[i]
  }

  /** A name the command line accepts whose output name is its own: the
      compiler would overwrite the input file. */
  lemma UpperCaseExtensionOverwritesInput(directory: string)
    ensures EndsWithExeIgnoringCase("APP.EXE")
    ensures OutputFileNameAsWritten("APP.EXE") == "APP.EXE"
    ensures OutputPath(directory, "APP.EXE") == directory + "\\" + "APP.EXE"
  {
    var name := "APP.EXE";
    assert name[1] != 'e' && name[2] != 'e' && name[3] != 'e' && name[4] != 'e';
    forall i: nat | i + 4 <= |name|
      ensures !OccursAt(name, ExeExtension, i)
    {
      assert name[i..i + 4][1] == name[i + 1];
    }
    assert EndsWithExeIgnoringCase(name) by {
      assert LowerAscii('E') == 'e' && LowerAscii('X') == 'x';
    }
    assert !Contains(name, ExeExtension);
  }

  /** The output file name with the suffix inserted before a trailing
      extension that matches ".exe" in any case (kept as written), and
      appended otherwise. */
  function OutputFileName(name: string): (r: string)
    ensures r != name && |r| == |name| + |PressedSuffix| + (if EndsWithExeIgnoringCase(name) then 0 else 4)
    ensures EndsWithExeIgnoringCase(name) ==>
              && r[..|name| - 4] == name[..|name| - 4]
              && r[|name| - 4..|name| - 4 + |PressedSuffix|] == PressedSuffix
              && r[|r| - 4..] == name[|name| - 4..]
    ensures !EndsWithExeIgnoringCase(name) ==> r == name + PressedSuffix + ExeExtension
  {
    if EndsWithExeIgnoringCase(name) then name[..|name| - 4] + PressedSuffix + name[|name| - 4..]
    else name + PressedSuffix + ExeExtension
  }

  /** On a name whose only ".exe" is its lower-case extension, the corrected
      rule and the source's rule agree. */
  lemma OutputFileNameAgreesOnPlainNames(stem: string)
    requires forall i: nat :: i < |stem| ==> !OccursAt(stem + ExeExtension, ExeExtension, i)
    ensures OutputFileName(stem + ExeExtension) == OutputFileNameAsWritten(stem + ExeExtension)
  {
    var name := stem + ExeExtension;
    assert name == stem + ExeExtension + "";
    ReplaceAllFirstOccurrence(stem, ExeExtension, "", PressedSuffix + ExeExtension);
    assert name[..|name| - 4] == stem && name[|name| - 4..] == ExeExtension;
  }

  /** `DirectoryName + "\\" + <output name>`, with the name as the source
      derives it: the path is the input's own exactly when the name holds
      no lower-case ".exe". */
  function OutputPath(directory: string, name: string): (r: string)
    ensures r == directory + "\\" + name <==> !Contains(name, ExeExtension)
  {
    var n := OutputFileNameAsWritten(name);
    assert (directory + "\\" + n)[|directory| + 1..] == n;
    assert (directory + "\\" + name)[|directory| + 1..] == name;
    directory + "\\" + n
  }

  // ----- Process -----

  /** What `Process` is given: the input's location and bytes, the loader
      template, the platform metadata and a fresh Guid. */
  datatype PackInput = PackInput(
    directoryName: string,
    fileName: string,
    fileBytes: seq<byte>,
    template: string,
    info: VersionInfo,
    icons: IconSource,
    guid: string)

  datatype CompileOutcome = Compiled(binary: seq<byte>) | CompileFailed(diagnostics: string)

  /** The compiler: output path, loader source, payload resource and icon. */
  type Compile = (string, string, seq<byte>, Option<Icon>) -> CompileOutcome

  datatype PackError =
    | NoCompressorChosen      // `best` stayed null: `best.GetType()` throws
    | NullInternalName        // `Title` throws while filling the template
    | CompileError(diagnostics: string)

  /** The file-system steps, in the order they happen. */
  datatype Effect =
    | WritePayload(payload: seq<byte>)
    | SaveIcon(icon: Icon)
    | RunCompiler(path: string)
    | CleanWorkspace

  datatype PackReport = PackReport(
    outputPath: string,
    source: string,
    kind: CodecKind,
    payload: seq<byte>,
    icon: Option<Icon>,
    compiledSize: nat,
    largerThanOriginal: bool)

  datatype Run = Run(outcome: Result<PackReport, PackError>, effects: seq<Effect>)

  function Process(input: PackInput, suite: CodecSuite, compile: Compile): (r: Run)
    ensures r.outcome.Ok? ==>
              && (var original := input.directoryName + "\\" + input.fileName;
                  r.outcome.value.outputPath == original <==> !Contains(input.fileName, ExeExtension))
              && (r.outcome.value.largerThanOriginal <==> r.outcome.value.compiledSize > |input.fileBytes|)
    ensures r.outcome.Ok? || r.outcome.error.CompileError? ==> |r.effects| > 0 && r.effects[|r.effects| - 1] == CleanWorkspace
  {
    var trials := RunTrials(LoadCompressors(suite), input.fileBytes);
    match PickCompressor(trials)
    case None => Run(Err(NoCompressorChosen), [])
    case Some(choice) =>
      var written := [WritePayload(choice.payload)];
      var marked := ApplyMarker(input.template, choice.kind);
      match Clone(input.info)
      case None => Run(Err(NullInternalName), written)
      case Some(meta) =>
        var source := CopyAssembly(marked, meta, input.guid);
        var icon := SelectIcon(input.icons);
        var saved := written + (if icon.Some? then [SaveIcon(icon.value)] else []);
        var path := OutputPath(input.directoryName, input.fileName);
        var compiled := saved + [RunCompiler(path)];
        match compile(path, source, choice.payload, icon)
        case CompileFailed(d) => Run(Err(CompileError(d)), compiled + [CleanWorkspace])
        case Compiled(bin) =>
          var report := PackReport(path, source, choice.kind, choice.payload, icon, |bin|, |bin| > |input.fileBytes|);
          Run(Ok(report), compiled + [CleanWorkspace])
  }

  /** How a run ends. Nothing is chosen only when no output is shorter than
      `long.MaxValue`. A null `InternalName` stops the run after the payload
      is written and before any cleanup. A compiler failure surfaces the
      compiler's text after cleaning up. Otherwise the compiler is handed the
      output path, the template with the chosen codec's marker spliced and
      the cloned metadata filled, the chosen payload and the selected icon;
      on success the payload is the first shortest output of the three
      compressors. */
  lemma ProcessOutcome(input: PackInput, suite: CodecSuite, compile: Compile)
    ensures var r := Process(input, suite, compile);
            var trials := RunTrials(LoadCompressors(suite), input.fileBytes);
            && (r.outcome == Err(NoCompressorChosen) <==>
                  forall j :: 0 <= j < 3 ==> |trials[j].output| >= Int64Max)
            && (r.outcome == Err(NullInternalName) <==>
                  PickCompressor(trials).Some? && input.info.internalName.None?)
            && (r.outcome == Err(NullInternalName) ==>
                  r.effects == [WritePayload(PickCompressor(trials).value.payload)])
            && (r.outcome.Err? && r.outcome.error.CompileError? ==>
                  var choice := PickCompressor(trials).value;
                  compile(OutputPath(input.directoryName, input.fileName),
                          CopyAssembly(ApplyMarker(input.template, choice.kind), Clone(input.info).value, input.guid),
                          choice.payload, SelectIcon(input.icons))
                  == CompileFailed(r.outcome.error.diagnostics))
            && (r.outcome.Ok? ==>
                  var report := r.outcome.value;
                  && PickCompressor(trials) == Some(Choice(Marker(report.kind), report.kind, report.payload))
                  && (forall j :: 0 <= j < 3 ==> |report.payload| <= |trials[j].output|)
                  && (forall j :: 0 <= j < Marker(report.kind) ==> |report.payload| < |trials[j].output|)
                  && report.outputPath == OutputPath(input.directoryName, input.fileName)
                  && Clone(input.info).Some?
                  && report.source == CopyAssembly(ApplyMarker(input.template, report.kind), Clone(input.info).value, input.guid)
                  && report.icon == SelectIcon(input.icons)
                  && compile(report.outputPath, report.source, report.payload, report.icon).Compiled?)
  {
    var trials := RunTrials(LoadCompressors(suite), input.fileBytes);
    PickCompressorChoosesFirstShortest(trials);
  }
}
