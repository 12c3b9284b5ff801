/**
 * The view of an object file the scanner needs: its format, its architecture (and from it the
 * bit width to decode in) and its text sections as segments of the file.
 */
module Binary {
  import opened Prelude

  type U64 = x: int | 0 <= x < 0x1_0000_0000_0000_0000

  /** The architectures the object-file reader names; `OtherArch` stands for every other one. */
  datatype Architecture = X86_64 | X86_64_X32 | I386 | Aarch64 | Arm | OtherArch(name: string)

  datatype BinaryFormat = Coff | Elf | MachO | Pe | Wasm | Xcoff

  /** Section kinds as the object-file reader classifies them; only `Text` matters here. */
  datatype SectionKind = Text | Data | ReadOnlyData | UninitializedData | Debug | OtherKind

  /**
   * A section of the parsed file: its kind, its (offset, size) in the file when it occupies
   * bytes there, and its name when the name can be read.
   */
  datatype Section = Section(kind: SectionKind, fileRange: Option<(U64, U64)>, name: Option<string>)

  /** A run of code in the file; the accessors `name`, `offset` and `size` are the destructors. */
  datatype Segment = Segment(name: Option<string>, offset: U64, size: U64)

  /** A section becomes a segment exactly when it is text and lies in the file. */
  function MapSegment(section: Section): (r: Option<Segment>)
    ensures r.Some? <==> section.kind == Text && section.fileRange.Some?
    ensures r.Some? ==> r.value == Segment(section.name, section.fileRange.value.0, section.fileRange.value.1)
  {
    if section.kind != Text then None
    else match section.fileRange
      case None => None
      case Some((offset, size)) => Some(Segment(section.name, offset, size))
  }

  /** The filter_map of MapSegment over the sections, in their order. */
  function Segments(sections: seq<Section>): seq<Segment>
    decreases |sections|
  {
    if sections == [] then []
    else
      var rest := Segments(sections[1..]);
      match MapSegment(sections[0])
      case None => rest
      case Some(s) => [s] + rest
  }

  /** Collecting distributes over concatenation, so segments keep the sections' relative order. */
  lemma {:induction false} SegmentsAppend(a: seq<Section>, b: seq<Section>)
    ensures Segments(a + b) == Segments(a) + Segments(b)
    decreases |a|
  {
    if a != [] {
      assert (a + b)[1..] == a[1..] + b;
      SegmentsAppend(a[1..], b);
    } else {
      assert a + b == b;
    }
  }

  /** A segment is collected exactly when some section maps to it. */
  lemma {:induction false} SegmentsMember(sections: seq<Section>, s: Segment)
    ensures s in Segments(sections) <==> exists i :: 0 <= i < |sections| && MapSegment(sections[i]) == Some(s)
    decreases |sections|
  {
    if sections != [] {
      SegmentsMember(sections[1..], s);
      if exists i :: 0 <= i < |sections| && MapSegment(sections[i]) == Some(s) {
        var i :| 0 <= i < |sections| && MapSegment(sections[i]) == Some(s);
        if i > 0 {
          assert sections[1..][i - 1] == sections[i];
        }
      }
      if exists j :: 0 <= j < |sections[1..]| && MapSegment(sections[1..][j]) == Some(s) {
        var j :| 0 <= j < |sections[1..]| && MapSegment(sections[1..][j]) == Some(s);
        assert sections[j + 1] == sections[1..][j];
      }
    }
  }

  /** There are no segments exactly when no section is text lying in the file. */
  lemma {:induction false} SegmentsEmpty(sections: seq<Section>)
    ensures Segments(sections) == []
        <==> forall i :: 0 <= i < |sections| ==> MapSegment(sections[i]).None?
    decreases |sections|
  {
    if sections != [] {
      SegmentsEmpty(sections[1..]);
      if Segments(sections) == [] {
        forall i | 0 <= i < |sections|
          ensures MapSegment(sections[i]).None?
        {
          if i > 0 {
            assert sections[1..][i - 1] == sections[i];
          }
        }
      }
      if forall i :: 0 <= i < |sections| ==> MapSegment(sections[i]).None? {
        forall j | 0 <= j < |sections[1..]|
          ensures MapSegment(sections[1..][j]).None?
        {
          assert sections[1..][j] == sections[j + 1];
        }
      }
    }
  }

  /** Never more segments than sections. */
  lemma {:induction false} SegmentsBounded(sections: seq<Section>)
    ensures |Segments(sections)| <= |sections|
    decreases |sections|
  {
    if sections != [] {
      SegmentsBounded(sections[1..]);
    }
  }

  /** What the object-file reader yields from a file: format, architecture and sections. */
  datatype ObjectFile = ObjectFile(format: BinaryFormat, architecture: Architecture, sections: seq<Section>)

  /** A parsed binary. */
  datatype Binary = Binary(format: BinaryFormat, architecture: Architecture, segments: seq<Segment>)
  {
    /** The bit width to decode in: 64 for x86-64, 32 for i386 and the x32 ABI, none otherwise. */
    function Bitness(): (r: Option<nat>)
      ensures r == Some(64) <==> architecture == X86_64
      ensures r == Some(32) <==> architecture == X86_64_X32 || architecture == I386
      ensures r.None? <==> architecture !in {X86_64, X86_64_X32, I386}
    {
      match architecture
      case X86_64 => Some(64)
      case X86_64_X32 | I386 => Some(32)
      case _ => None
    }
  }

  /**
   * Binary::parse after the object-file reader: its error is passed on, and otherwise the
   * binary keeps the file's format and architecture and the segments of its sections.
   */
  function Parse<E>(file: Result<ObjectFile, E>): (r: Result<Binary, E>)
    ensures r.Err? <==> file.Err?
    ensures r.Err? ==> r.error == file.error
    ensures r.Ok? ==> r.value.format == file.value.format && r.value.architecture == file.value.architecture
    ensures r.Ok? ==> r.value.segments == Segments(file.value.sections)
    ensures r.Ok? ==> forall s :: s in r.value.segments <==>
      exists i :: 0 <= i < |file.value.sections| && MapSegment(file.value.sections[i]) == Some(s)
  {
    match file
    case Err(e) => Err(e)
    case Ok(f) =>
      SegmentsMembers(f.sections);
      Ok(Binary(f.format, f.architecture, Segments(f.sections)))
  }

  /** SegmentsMember for every segment at once. */
  lemma SegmentsMembers(sections: seq<Section>)
    ensures forall s :: s in Segments(sections) <==>
      exists i :: 0 <= i < |sections| && MapSegment(sections[i]) == Some(s)
  {
    forall s {
      SegmentsMember(sections, s);
    }
  }
}
