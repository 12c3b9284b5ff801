# Instruction-set scanner: counting engine, argument reader and segment filter

The scanner reads the executable sections of an x86 binary, decodes every instruction in
them and reports which CPUID features (instruction-set extensions) the code uses. This
project models three parts of it and proves what they promise:

- **The counting engine** (`src/decoder.rs`). Three tasks take decoded instructions one at a
  time and bump counters in fixed-size arrays:
  - `TaskDetect` credits every feature an instruction lists;
  - `TaskCount` credits only the first one;
  - `TaskDetail` credits the first feature, the instruction's mnemonic under that feature,
    and every operand register that is not `None`.

  Finalisation turns the arrays into named records, without the zero counters, in id order.
  `Decoder::read` feeds every decoded instruction to its task, in order.
- **The argument reader** (`src/cli.rs`). `read_args` makes one left-to-right pass over the
  arguments and fills a `Config`. `--` makes the next argument the file path. Help ends the
  pass with no config. An unknown option is an error that names it.
- **The binary view** (`src/binary.rs`). `bitness` maps the architecture to a bit width.
  `map_segment` keeps the text sections that lie in the file. `parse` collects those
  segments in section order.

Layout:

- `prelude.dfy` (module `Prelude`) holds `Option` and `Result`.
- `decoder_spec.dfy` (module `DecoderSpec`) holds the counters as values:
  - the abstract decoded `Instruction`;
  - what one instruction does to each task's counters (`DetectStep`, `CountStep`, `DetailStep`);
  - what a stream does to them (`DetectRun`, `CountRun`, `DetailRun`);
  - finalisation (`MapFrom` for `Record::map_from`, `RecordFMapFrom` for `RecordF::map_from`);
  - the lemmas about all of these.
- `decoder.dfy` (module `Decoder`) holds the tasks as classes whose arrays are updated in place:
  - each class keeps a ghost history `Seen` of the instructions it was given;
  - its `Valid()` ties the arrays to the run of the matching step function over `Seen`, starting from zeros;
  - `Task` is the closed choice of one of the three tasks, and `Decoder` forwards instructions to it.
- `cli.dfy` (module `Cli`) holds `ReadArgs`, the loop of `read_args`. It is proved equal to the
  recursive reference `Run`, and the lemmas characterise `Run`.
- `binary.dfy` (module `Binary`) holds sections, segments, `MapSegment`, the order-preserving
  collection `Segments`, `Parse` and `Bitness`.

## Model

| member | source | states |
|---|---|---|
| DecoderSpec.CreditAt | src/decoder.rs:73-75 | crediting a list of feature ids raises each counter by the number of times its id occurs in the list, and leaves every other counter alone |
| DecoderSpec.CreditTotal | src/decoder.rs:73-75 | crediting a list of feature ids raises the sum of the counters by the length of the list |
| DecoderSpec.DetectStep | src/decoder.rs:68-76 | TaskDetect::add over counter values; it keeps the 178 counters, and `CreditAt`, `DetectRunAt` and `DetectRunIgnoresInvalid` state what it adds |
| DecoderSpec.DetectRunAt | src/decoder.rs:68-76 | after a stream of instructions, the counter of feature j has risen by the number of times valid instructions list j |
| DecoderSpec.DetectRunTotal | src/decoder.rs:68-76 | after a stream, TaskDetect's total has risen by the number of feature listings of the valid instructions |
| DecoderSpec.DetectRunIgnoresInvalid | src/decoder.rs:69-71 | TaskDetect's counters after a stream equal its counters after the stream's valid instructions alone |
| DecoderSpec.DetectRunAppend | src/decoder.rs:68-76 | adding two parts of a stream one after the other gives the counters of adding the whole stream |
| DecoderSpec.CoveragePositive | src/decoder.rs:73-75 | a feature is listed a positive number of times exactly when some valid instruction lists it |
| DecoderSpec.HasCpuid | src/decoder.rs:55-57 | has_cpuid over counter values; it has no contract of its own, and `HasCpuidIff` states what it means |
| DecoderSpec.HasCpuidIff | src/decoder.rs:55-57 | from fresh counters, the CPUID counter is positive exactly when some valid instruction in the stream lists the CPUID feature |
| DecoderSpec.CountStep | src/decoder.rs:95-101 | TaskCount::add over counter values; it keeps the 178 counters, and `CountStepAt` states exactly which one rises |
| DecoderSpec.CountStepAt | src/decoder.rs:95-101 | TaskCount's step raises only the counter of a valid instruction's first listed feature, and by exactly one; an invalid instruction changes nothing |
| DecoderSpec.CountRunAt | src/decoder.rs:95-101 | after a stream, the counter of feature j has risen by the number of valid instructions whose first listed feature is j |
| DecoderSpec.CountRunTotal | src/decoder.rs:95-101 | after a stream, TaskCount's total has risen by exactly the number of valid instructions |
| DecoderSpec.CountRunIgnoresInvalid | src/decoder.rs:96-98 | TaskCount's counters after a stream equal its counters after the stream's valid instructions alone |
| DecoderSpec.FeatureAdd | src/decoder.rs:118-121 | Feature::add over values; it has no contract of its own, and `FeatureAddConsistent` states the invariant it keeps |
| DecoderSpec.FeatureAddConsistent | src/decoder.rs:118-121 | Feature::add keeps a feature's count equal to the sum of its mnemonic counters |
| DecoderSpec.DetailStep | src/decoder.rs:178-193 | TaskDetail::add over values; it keeps the state's shape, and `DetailRunConsistent`, `DetailRunMnemonics`, `DetailRunRegisters` and `DetailRunIgnoresInvalid` state what it adds |
| DecoderSpec.CreditRegistersAt | src/decoder.rs:186-192 | the operand loop raises each register counter by the number of slots holding that register, and never counts `None` |
| DecoderSpec.FreshDetail | src/decoder.rs:172-176 | a fresh TaskDetail state is consistent: every count is the sum of its mnemonic counts, and `None` is uncounted |
| DecoderSpec.DetailRunConsistent | src/decoder.rs:178-193 | every stream keeps TaskDetail's invariant, starting from any consistent state |
| DecoderSpec.DetailRunAgreesWithCount | src/decoder.rs:183-184 | TaskDetail's per-feature counts follow TaskCount's counters over the same stream |
| DecoderSpec.DetailRunRegisters | src/decoder.rs:186-192 | after a stream, each register counter has risen once per operand slot holding it, a repeat counting once per slot; `None` stays unchanged |
| DecoderSpec.DetailRunMnemonics | src/decoder.rs:183-184 | after a stream, mnemonic m under feature f has risen by the number of valid instructions with first feature f and mnemonic m |
| DecoderSpec.DetailRunIgnoresInvalid | src/decoder.rs:179-181 | TaskDetail's state after a stream equals its state after the stream's valid instructions alone |
| DecoderSpec.PositiveIds | src/decoder.rs:25-27 | every id kept is in range, at or after the start, and has a positive count |
| DecoderSpec.PositiveIdsSorted | src/decoder.rs:29-31 | the kept ids are strictly increasing, so records come out in id order |
| DecoderSpec.PositiveIdsComplete | src/decoder.rs:25-31 | every id with a positive count is kept |
| DecoderSpec.MapFrom | src/decoder.rs:29-32 | Record::map_from; it has no contract of its own, and `MapFromShape`, `MapFromTotal`, `MapFromNoZeros` and `MapFromZeros` state what it yields |
| DecoderSpec.MapFromShape | src/decoder.rs:29-31 | Record::map_from yields one record per id with a positive count, in increasing id order, named `names[id]` and carrying that count |
| DecoderSpec.MapFromTotal | src/decoder.rs:29-31 | the records' total equals the sum of the counters, because only zeros are dropped |
| DecoderSpec.MapFromNoZeros | src/decoder.rs:25-27 | no record has a zero count |
| DecoderSpec.MapFromZeros | src/decoder.rs:29-31 | all-zero counters finalise to no records |
| DecoderSpec.MapFeature | src/decoder.rs:135-145 | RecordF::map yields a record exactly when the feature's count is positive, named after the feature and carrying its count |
| DecoderSpec.RecordFMapFrom | src/decoder.rs:147-149 | RecordF::map_from; it has no contract of its own, and `RecordFMapFromShape` and `RecordFMapFromConsistent` state what it yields |
| DecoderSpec.RecordFMapFromShape | src/decoder.rs:135-149 | RecordF::map_from yields one record per feature with a positive count, in id order, with the feature's name and count and its mnemonics finalised by Record::map_from |
| DecoderSpec.RecordFMapFromConsistent | src/decoder.rs:135-149 | when every feature is consistent, each detail record has a positive count equal to the total of its mnemonic records, none of which is zero |
| DecoderSpec.DetailResult | src/decoder.rs:195-199 | TaskDetail::into_result over values: RecordF::map_from of the features and Record::map_from of the registers; it has no contract of its own, and `FreshResultsEmpty` and `Decoder.TaskDetail.IntoResult` state what it yields |
| DecoderSpec.FreshFeaturesDropped | src/decoder.rs:135-138 | fresh features (count 0) all yield no record |
| DecoderSpec.FreshResultsEmpty | src/decoder.rs:172-176 | finalising fresh counters gives no feature records, and a fresh TaskDetail gives two empty lists |
| Decoder.TaskDetect.constructor | src/decoder.rs:63-66 | a fresh task has 178 zero counters, a fresh array and an empty history |
| Decoder.TaskDetect.Add | src/decoder.rs:68-76 | the counters become DetectStep of the old ones, so invalid instructions change nothing; the history grows by the instruction; the invariant holds |
| Decoder.TaskDetect.HasCpuid | src/decoder.rs:55-57 | true exactly when a valid instruction added so far listed the CPUID feature |
| Decoder.TaskDetect.IntoResult | src/decoder.rs:78-80 | the result is Record::map_from of the run over the history; no record is zero; the total is the number of feature listings of the valid instructions added |
| Decoder.TaskCount.constructor | src/decoder.rs:90-93 | a fresh task has 178 zero counters, a fresh array and an empty history |
| Decoder.TaskCount.Add | src/decoder.rs:95-101 | the counters become CountStep of the old ones (only the first listed feature, by one); the history grows; the invariant holds |
| Decoder.TaskCount.IntoResult | src/decoder.rs:103-105 | the result is Record::map_from of the run over the history; no record is zero; the total is the number of valid instructions added |
| Decoder.Feature.constructor | src/decoder.rs:114-116 | a fresh feature has count 0 and 1894 zero mnemonic counters |
| Decoder.Feature.Add | src/decoder.rs:118-121 | the count and the mnemonic's counter each rise by one, and the count stays the sum of the mnemonic counters |
| Decoder.Feature.IntoMnemonics | src/decoder.rs:123-125 | the result is Record::map_from of the mnemonic counters (one record per credited mnemonic, in id order, by `MapFromShape`); no record is zero, and their total is the feature's count |
| Decoder.TaskDetail.constructor | src/decoder.rs:172-176 | a fresh task has 178 fresh features, all-zero register counters and an empty history |
| Decoder.TaskDetail.Add | src/decoder.rs:178-193 | the state becomes DetailStep of the old one; the history grows by the instruction; the invariant holds |
| Decoder.TaskDetail.NewFeatures | src/decoder.rs:173 | one fresh, consistent Feature per feature id, each with all-zero counters and its own mnemonic array |
| Decoder.TaskDetail.Step | src/decoder.rs:178-193 | the counters become DetailStep of the old ones: nothing changes for an invalid instruction |
| Decoder.TaskDetail.CreditFeature | src/decoder.rs:183-184 | only the first listed feature changes, by Feature::add of the mnemonic |
| Decoder.TaskDetail.CreditOperands | src/decoder.rs:186-192 | only the register counters change, by one per operand slot holding a register other than `None` |
| Decoder.TaskDetail.IntoResult | src/decoder.rs:195-199 | the result is the finalisation of the run over the history; each feature record's count is positive and equals the total of its mnemonic records; no register record is zero |
| Decoder.Task.Add | src/decoder.rs:43-48 | adding to the chosen task keeps its invariant and grows its history by the instruction |
| Decoder.Decoder.constructor | src/decoder.rs:208-210 | the decoder keeps the bit width, and its task is fresh, empty and of the requested kind |
| Decoder.Decoder.Read | src/decoder.rs:218-220 | every instruction is added to the task in order, so the task's state is the left fold of add over them |
| Decoder.Decoder.IntoTask | src/decoder.rs:225-227 | Decoder::into_task hands back the task; it has no contract of its own, and the task's `IntoResult` states what finalising it gives |
| Cli.ReadArgs | src/cli.rs:75-114 | the loop's outcome equals the recursive reference `Run` from the default config |
| Cli.Run | src/cli.rs:78-113 | the pass over the arguments not yet read, as recursion; it has no contract of its own, and `RunPassing`, `RunStops` and `EmptyArgSkipped` state what it yields |
| Cli.Parse | src/cli.rs:75-77 | read_args starts from the default config; it has no contract of its own, and `ReadArgs` and the examples below are stated through it |
| Cli.RunPassing | src/cli.rs:85-104 | when no argument stops the pass, the file path and both modes are each set by the last argument that sets them, and otherwise stay as they were |
| Cli.RunStops | src/cli.rs:81-84 | the first argument that is not a path, an empty argument or a known flag decides the outcome: `--` takes the next argument (or keeps the path when none follows), help gives no config, anything else is `Unknown` of that argument; later arguments never matter |
| Cli.EmptyArgSkipped | src/cli.rs:85-87 | an empty argument changes nothing unless it directly follows `--` |
| Cli.NoArgs | src/cli/tests.rs:28-31 | no arguments give the default config |
| Cli.ArgsExample | src/cli/tests.rs:9-20 | the argument list of the `args` test gives path `--/file/path`, Detail and Quiet |
| Cli.HelpExample | src/cli/tests.rs:33-36 | help before an unknown option gives no config |
| Cli.UnknownExample | src/cli/tests.rs:44-47 | `--foo` is `Unknown("--foo")` |
| Binary.MapSegment | src/binary.rs:38-43 | a section becomes a segment exactly when it is text and has a file range; the segment carries the range's offset and size and the section's name |
| Binary.Segments | src/binary.rs:53 | the filter_map of map_segment in section order; it has no contract of its own, and `SegmentsAppend`, `SegmentsMember`, `SegmentsEmpty` and `SegmentsBounded` state what it yields |
| Binary.SegmentsAppend | src/binary.rs:53 | collecting segments distributes over concatenation, so segments keep the sections' relative order |
| Binary.SegmentsMember | src/binary.rs:53 | a segment is collected exactly when some section maps to it |
| Binary.SegmentsEmpty | src/binary.rs:53 | there are no segments exactly when no section maps to one |
| Binary.SegmentsBounded | src/binary.rs:53 | never more segments than sections |
| Binary.Binary.Bitness | src/binary.rs:65-72 | 64 exactly for x86-64; 32 exactly for the x32 ABI and i386; none exactly for every other architecture |
| Binary.Parse | src/binary.rs:50-55 | a reader error is passed on unchanged; otherwise the binary keeps the file's format and architecture, and its segments are `Segments` of the sections, in section order, exactly those the sections map to |

## Left out

- The instruction decoder (`iced_x86`) is not part of this model. A decoded instruction is an abstract value: whether it is invalid, its mnemonic id, its CPUID feature ids and the register ids of its first four operands, with 0 for `Register::None`.
- The feature, mnemonic and register name tables are not part of this model. They are a `Tables` parameter whose lengths are 178, 1894 and 256.
- The numeric id of `CpuidFeature::CPUID` is not part of this model, so `HasCpuid` takes the feature id as a parameter.
- The file seek and buffered read in `Decoder::read` (src/decoder.rs:213-216) are file I/O. `Decoder.Decoder.Read` takes the decoded instructions as a sequence instead. `src/io.rs` and `src/reader.rs` are left out for the same reason.
- The object-file reader used by `Binary::parse` is not part of this model. `Binary.Parse` takes its outcome (format, architecture, sections, or an error) as its argument. Architectures keep the five the reader names and a catch-all. Section kinds keep `Text` and a few others with a catch-all. Formats keep six named cases and no catch-all. Only the x86 architectures and `Text` are distinguished by the code.
- `src/print.rs`, `src/app.rs`, `src/error.rs` and `src/main.rs` are left out. They hold console output, floating-point percentages, orchestration and exit codes.
- The ids are the subset types `FeatureId`, `MnemonicId` and `RegisterId`, below 178, 1894 and 256. This assumes the decoder's ids stay below the constants at src/decoder.rs:10-15, so the out-of-range index panics at src/decoder.rs:74, 120 and 190 cannot occur in the model.
- The counters are unbounded naturals. The source's `u64` counters would overflow only after 2^64 increments. An overflowing `+= 1` panics in a debug build and wraps in a release build.
- Decoder.TaskCount.Add: requires a valid instruction to list at least one feature. The source indexes the first listed feature and would panic on an empty list.
- Decoder.TaskDetail.Add: has the same requirement, for the same reason.
- Decoder.Decoder.Read: has the same requirement when the task is `TaskCount` or `TaskDetail`.
- The `Task` trait is modelled as a closed choice of the three tasks (`Decoder.Task`). `Decoder::new`'s type argument becomes a `TaskKind` tag.
- `into_result`, `into_mnemonics` and `into_task` consume their object in the source. Here they are functions that read it.
- `Decoder::new(bitness)` follows `src/decoder.rs`. `src/io.rs` calls a two-argument form from another version of the program.
- Accessors are the datatypes' field destructors: `Config::file_path`, `decoder_mode` and `output_mode`, and `Segment::name`, `offset` and `size`. Each therefore returns exactly what was stored. `Binary::format`, `architecture` and `into_segments` are handled the same way.
- Config holds the file path as `Option<string>`. The source's `as_deref` borrowing has no counterpart.
