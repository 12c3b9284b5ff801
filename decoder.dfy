/**
 * The counting tasks of the instruction scanner as objects whose counter arrays are updated in
 * place, and the decoder that forwards every decoded instruction to its task.
 *
 * Each task remembers, as ghost state, the instructions it has been given (`Seen`); its
 * invariant `Valid()` ties the arrays to the run of the matching function of DecoderSpec over
 * `Seen`, starting from all-zero counters.
 */
module Decoder {
  import opened DecoderSpec

  /** TaskDetect: one counter per feature, credited for every feature an instruction lists. */
  class TaskDetect {
    const features: array<nat>
    /** The instructions added so far, in order. */
    ghost var Seen: seq<Instruction>

    ghost predicate Valid()
      reads this, features
    {
      && features.Length == FEATURE_COUNT
      && features[..] == DetectRun(Zeros(FEATURE_COUNT), Seen)
    }

    /** TaskDetect::new: all counters zero. */
    constructor ()
      ensures Valid() && fresh(features) && Seen == []
      ensures features[..] == Zeros(FEATURE_COUNT)
    {
      features := new nat[FEATURE_COUNT](_ => 0);
      Seen := [];
    }

    /** TaskDetect::add: a valid instruction credits each feature it lists, once per listing. */
    method Add(ins: Instruction)
      requires Valid()
      modifies this, features
      ensures Valid() && Seen == old(Seen) + [ins]
      ensures features[..] == DetectStep(old(features[..]), ins)
    {
      ghost var before := features[..];
      DetectRunSnoc(Zeros(FEATURE_COUNT), Seen, ins);
      Seen := Seen + [ins];
      if !ins.invalid {
        for k := 0 to |ins.features|
          modifies features
          invariant features[..] == Credit(before, ins.features[..k])
        {
          var id := ins.features[k];
          features[id] := features[id] + 1;
          assert ins.features[..k + 1][..k] == ins.features[..k];
        }
        assert ins.features[..|ins.features|] == ins.features;
      }
    }

    /** TaskDetect::has_cpuid: true exactly when a valid instruction seen so far listed CPUID. */
    function HasCpuid(cpuid: FeatureId): (r: bool)
      reads this, features
      requires Valid()
      ensures r <==> exists k :: 0 <= k < |Seen| && !Seen[k].invalid && cpuid in Seen[k].features
    {
      HasCpuidIff(Seen, cpuid);
      features[cpuid] > 0
    }

    /**
     * TaskDetect::into_result: the non-zero feature counters as named records in id order;
     * their total is the number of feature listings of the valid instructions seen.
     */
    function IntoResult(tables: Tables): (r: seq<Record>)
      reads this, features
      requires Valid() && tables.Valid()
      ensures r == MapFrom(DetectRun(Zeros(FEATURE_COUNT), Seen), tables.feature)
      ensures forall k :: 0 <= k < |r| ==> r[k].count > 0
      ensures Total(r) == Listed(Seen)
    {
      MapFromNoZeros(features[..], tables.feature);
      MapFromTotal(features[..], tables.feature, 0);
      assert features[..][0..] == features[..];
      DetectRunTotal(Zeros(FEATURE_COUNT), Seen);
      SumZeros(FEATURE_COUNT);
      MapFrom(features[..], tables.feature)
    }
  }

  /** TaskCount: one counter per feature, credited for the first feature an instruction lists. */
  class TaskCount {
    const features: array<nat>
    /** The instructions added so far, in order. */
    ghost var Seen: seq<Instruction>

    ghost predicate Valid()
      reads this, features
    {
      && features.Length == FEATURE_COUNT
      && AllHavePrimary(Seen)
      && features[..] == CountRun(Zeros(FEATURE_COUNT), Seen)
    }

    /** TaskCount::new: all counters zero. */
    constructor ()
      ensures Valid() && fresh(features) && Seen == []
      ensures features[..] == Zeros(FEATURE_COUNT)
    {
      features := new nat[FEATURE_COUNT](_ => 0);
      Seen := [];
    }

    /** TaskCount::add: a valid instruction credits its first listed feature by one. */
    method Add(ins: Instruction)
      requires Valid() && HasPrimary(ins)
      modifies this, features
      ensures Valid() && Seen == old(Seen) + [ins]
      ensures features[..] == CountStep(old(features[..]), ins)
    {
      CountRunSnoc(Zeros(FEATURE_COUNT), Seen, ins);
      Seen := Seen + [ins];
      if !ins.invalid {
        var id := ins.features[0];
        features[id] := features[id] + 1;
      }
    }

    /**
     * TaskCount::into_result: the non-zero feature counters as named records in id order;
     * their total is the number of valid instructions seen.
     */
    function IntoResult(tables: Tables): (r: seq<Record>)
      reads this, features
      requires Valid() && tables.Valid()
      ensures r == MapFrom(CountRun(Zeros(FEATURE_COUNT), Seen), tables.feature)
      ensures forall k :: 0 <= k < |r| ==> r[k].count > 0
      ensures Total(r) == |ValidOnly(Seen)|
    {
      MapFromNoZeros(features[..], tables.feature);
      MapFromTotal(features[..], tables.feature, 0);
      assert features[..][0..] == features[..];
      CountRunTotal(Zeros(FEATURE_COUNT), Seen);
      SumZeros(FEATURE_COUNT);
      MapFrom(features[..], tables.feature)
    }
  }

  /** A feature of TaskDetail: how often it was credited, and one counter per mnemonic. */
  class Feature {
    var count: nat
    const mnemonics: array<nat>

    /** The count is the sum of the mnemonic counters. */
    ghost predicate Valid()
      reads this, mnemonics
    {
      mnemonics.Length == MNEMONIC_ENUM_COUNT && FeatureConsistent(View())
    }

    function View(): FeatureState
      reads this, mnemonics
    {
      FeatureState(count, mnemonics[..])
    }

    /** Feature::new: count and every mnemonic counter zero. */
    constructor ()
      ensures Valid() && fresh(mnemonics)
      ensures View() == FeatureState(0, Zeros(MNEMONIC_ENUM_COUNT))
    {
      count := 0;
      mnemonics := new nat[MNEMONIC_ENUM_COUNT](_ => 0);
      new;
      assert mnemonics[..] == Zeros(MNEMONIC_ENUM_COUNT);
      SumZeros(MNEMONIC_ENUM_COUNT);
    }

    /** Feature::add: the count and the mnemonic's counter each rise by one. */
    method Add(mnemonic: MnemonicId)
      requires Valid()
      modifies this, mnemonics
      ensures Valid() && View() == FeatureAdd(old(View()), mnemonic)
    {
      FeatureAddConsistent(View(), mnemonic);
      count := count + 1;
      mnemonics[mnemonic] := mnemonics[mnemonic] + 1;
    }

    /**
     * Feature::into_mnemonics: Record::map_from of the mnemonic counters, so non-zero records
     * in mnemonic id order whose total is the feature's count.
     */
    function IntoMnemonics(names: seq<string>): (r: seq<Record>)
      reads this, mnemonics
      requires Valid() && |names| == MNEMONIC_ENUM_COUNT
      ensures r == MapFrom(mnemonics[..], names)
      ensures Total(r) == count
      ensures forall k :: 0 <= k < |r| ==> r[k].count > 0
    {
      MapFromTotal(mnemonics[..], names, 0);
      assert mnemonics[..][0..] == mnemonics[..];
      MapFromNoZeros(mnemonics[..], names);
      MapFrom(mnemonics[..], names)
    }
  }

  /**
   * TaskDetail: per feature a Feature crediting the mnemonics of the instructions whose first
   * feature it is, and one counter per register.
   */
  class TaskDetail {
    const features: seq<Feature>
    const registers: array<nat>
    /** Every object the task's counters live in. */
    ghost const Repr: set<object>
    /** The instructions added so far, in order. */
    ghost var Seen: seq<Instruction>

    /** Each feature has its own mnemonic array, apart from the register array. */
    ghost predicate Shaped()
      reads Repr
    {
      && |features| == FEATURE_COUNT
      && registers.Length == REGISTER_ENUM_COUNT
      && registers in Repr
      && (forall i :: 0 <= i < |features| ==> features[i] in Repr && features[i].mnemonics in Repr)
      && (forall i, j :: 0 <= i < |features| && 0 <= j < |features| && i != j ==>
            features[i].mnemonics != features[j].mnemonics)
      && (forall i :: 0 <= i < |features| ==> features[i].mnemonics != registers)
      && (forall i :: 0 <= i < |features| ==> features[i].Valid())
    }

    /** The counters as values. */
    function Snapshot(): (s: DetailState)
      reads Repr
      requires Shaped()
      ensures DetailShaped(s)
    {
      DetailState(
        seq(|features|, i requires 0 <= i < |features| && Shaped() reads Repr => features[i].View()),
        registers[..])
    }

    ghost predicate Valid()
      reads this, Repr
    {
      && this !in Repr
      && Shaped()
      && AllHavePrimary(Seen)
      && Snapshot() == DetailRun(FreshDetail(), Seen)
    }

    /** TaskDetail::new: a fresh Feature per feature id, and all register counters zero. */
    constructor ()
      ensures Valid() && fresh(Repr) && Seen == []
      ensures Snapshot() == FreshDetail()
    {
      var fs, objs := NewFeatures();
      var regs := new nat[REGISTER_ENUM_COUNT](_ => 0);
      features, registers := fs, regs;
      Repr := {regs as object} + objs;
      Seen := [];
      new;
      assert Shaped();
      forall i | 0 <= i < FEATURE_COUNT
        ensures Snapshot().features[i] == FreshDetail().features[i]
      {
      }
      assert Snapshot().features == FreshDetail().features;
    }

    /** The feature list of TaskDetail::new: one fresh Feature per feature id. */
    static method NewFeatures() returns (fs: seq<Feature>, ghost objs: set<object>)
      ensures |fs| == FEATURE_COUNT && fresh(objs)
      ensures forall i :: 0 <= i < |fs| ==> fs[i] in objs && fs[i].mnemonics in objs
      ensures forall i :: 0 <= i < |fs| ==>
        fs[i].Valid() && fs[i].View() == FeatureState(0, Zeros(MNEMONIC_ENUM_COUNT))
      ensures forall i, j :: 0 <= i < |fs| && 0 <= j < |fs| && i != j ==> fs[i].mnemonics != fs[j].mnemonics
    {
      fs, objs := [], {};
      while |fs| < FEATURE_COUNT
        invariant |fs| <= FEATURE_COUNT && fresh(objs)
        invariant forall i :: 0 <= i < |fs| ==> fs[i] in objs && fs[i].mnemonics in objs
        invariant forall i :: 0 <= i < |fs| ==>
          fs[i].Valid() && fs[i].View() == FeatureState(0, Zeros(MNEMONIC_ENUM_COUNT))
        invariant forall i, j :: 0 <= i < |fs| && 0 <= j < |fs| && i != j ==> fs[i].mnemonics != fs[j].mnemonics
      {
        var f := new Feature();
        fs, objs := fs + [f], objs + {f, f.mnemonics};
      }
    }

    /**
     * TaskDetail::add: a valid instruction credits its mnemonic under its first listed feature,
     * and every operand slot that holds a register credits that register.
     */
    method Add(ins: Instruction)
      requires Valid() && HasPrimary(ins)
      modifies this, Repr
      ensures Valid() && Seen == old(Seen) + [ins]
      ensures Snapshot() == DetailStep(old(Snapshot()), ins)
    {
      DetailRunSnoc(FreshDetail(), Seen, ins);
      Seen := Seen + [ins];
      Step(ins);
    }

    /** The counter updates of TaskDetail::add; nothing happens for an invalid instruction. */
    method Step(ins: Instruction)
      requires Shaped() && HasPrimary(ins)
      modifies Repr
      ensures Shaped() && Snapshot() == DetailStep(old(Snapshot()), ins)
    {
      if !ins.invalid {
        CreditFeature(ins.features[0], ins.mnemonic);
        CreditOperands(ins.opRegs);
      }
    }

    /** The feature part of TaskDetail::add: `features[id].add(mnemonic)`. */
    method CreditFeature(id: FeatureId, mnemonic: MnemonicId)
      requires Shaped()
      modifies features[id], features[id].mnemonics
      ensures Shaped()
      ensures Snapshot() == old(Snapshot()).(features := old(Snapshot()).features[id := FeatureAdd(old(Snapshot()).features[id], mnemonic)])
    {
      ghost var before := Snapshot();
      features[id].Add(mnemonic);
      ghost var credited := before.features[id := FeatureAdd(before.features[id], mnemonic)];
      assert forall i :: 0 <= i < FEATURE_COUNT ==> features[i].View() == credited[i];
      assert Snapshot().features == credited;
    }

    /** The register loop of TaskDetail::add: one increment per operand slot holding a register. */
    method CreditOperands(ops: Operands)
      requires Shaped()
      modifies registers
      ensures Shaped()
      ensures Snapshot() == old(Snapshot()).(registers := CreditRegisters(old(registers[..]), ops))
    {
      ghost var before := Snapshot();
      for op := 0 to OPERAND_SLOTS
        invariant registers[..] == CreditRegisters(before.registers, ops[..op])
      {
        var register := ops[op];
        if register != REGISTER_NONE {
          registers[register] := registers[register] + 1;
        }
        assert ops[..op + 1][..op] == ops[..op];
      }
      assert ops[..OPERAND_SLOTS] == ops;
      assert forall i :: 0 <= i < FEATURE_COUNT ==> features[i].View() == before.features[i];
    }

    /**
     * TaskDetail::into_result: the credited features, each with a count equal to the total of
     * its non-zero mnemonic records, and the non-zero register records, all in id order.
     */
    function IntoResult(tables: Tables): (r: (seq<RecordF>, seq<Record>))
      reads this, Repr
      requires Valid() && tables.Valid()
      ensures r == DetailResult(DetailRun(FreshDetail(), Seen), tables)
      ensures forall k :: 0 <= k < |r.0| ==> r.0[k].count > 0 && r.0[k].count == Total(r.0[k].mnemonics)
      ensures forall k :: 0 <= k < |r.1| ==> r.1[k].count > 0
    {
      DetailRunConsistent(FreshDetail(), Seen);
      RecordFMapFromConsistent(Snapshot().features, tables);
      MapFromNoZeros(registers[..], tables.register);
      DetailResult(Snapshot(), tables)
    }
  }

  /** The three tasks as one closed variant, chosen once per decoder. */
  datatype Task = Detect(detect: TaskDetect) | Count(count: TaskCount) | Detail(detail: TaskDetail)
  {
    ghost function Repr(): set<object> {
      match this
      case Detect(t) => {t, t.features}
      case Count(t) => {t, t.features}
      case Detail(t) => {t} + t.Repr
    }

    ghost predicate Valid()
      reads Repr()
    {
      match this
      case Detect(t) => t.Valid()
      case Count(t) => t.Valid()
      case Detail(t) => t.Valid()
    }

    ghost function Seen(): seq<Instruction>
      reads Repr()
    {
      match this
      case Detect(t) => t.Seen
      case Count(t) => t.Seen
      case Detail(t) => t.Seen
    }

    /** TaskCount and TaskDetail index the first listed feature; TaskDetect takes any instruction. */
    predicate Accepts(ins: Instruction) {
      Detect? || HasPrimary(ins)
    }

    /** Task::add of the chosen task. */
    method Add(ins: Instruction)
      requires Valid() && Accepts(ins)
      modifies Repr()
      ensures Valid() && Seen() == old(Seen()) + [ins]
    {
      match this
      case Detect(t) => t.Add(ins);
      case Count(t) => t.Add(ins);
      case Detail(t) => t.Add(ins);
    }
  }

  /** Which task `Decoder::new` creates (the type argument `T` of the source). */
  datatype TaskKind = DetectKind | CountKind | DetailKind

  /** A decoder of a fixed bit width that feeds one task. */
  class Decoder {
    const bitness: nat
    const task: Task

    /** Decoder::new: the given width and a fresh task of the given kind. */
    constructor (bitness: nat, kind: TaskKind)
      ensures this.bitness == bitness
      ensures task.Valid() && task.Seen() == [] && fresh(task.Repr())
      ensures task.Detect? <==> kind == DetectKind
      ensures task.Count? <==> kind == CountKind
      ensures task.Detail? <==> kind == DetailKind
    {
      this.bitness := bitness;
      match kind
      case DetectKind =>
        var t := new TaskDetect();
        task := Detect(t);
      case CountKind =>
        var t := new TaskCount();
        task := Count(t);
      case DetailKind =>
        var t := new TaskDetail();
        task := Detail(t);
    }

    /**
     * The forwarding loop of Decoder::read: every instruction decoded from the segment's
     * bytes, valid or not, goes to the task, in order.
     */
    method Read(instructions: seq<Instruction>)
      requires task.Valid()
      requires forall k :: 0 <= k < |instructions| ==> task.Accepts(instructions[k])
      modifies task.Repr()
      ensures task.Valid() && task.Seen() == old(task.Seen()) + instructions
    {
      for k := 0 to |instructions|
        invariant task.Valid()
        invariant task.Seen() == old(task.Seen()) + instructions[..k]
      {
        task.Add(instructions[k]);
        assert instructions[..k + 1] == instructions[..k] + [instructions[k]];
      }
      assert instructions[..|instructions|] == instructions;
    }

    /** Decoder::into_task. */
    function IntoTask(): Task {
      task
    }
  }
}
