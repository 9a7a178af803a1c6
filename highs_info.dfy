/** The info-record registry of HiGHS (lp_data/HighsInfo.h).  A HighsInfo
    object is a plain struct of solver statistics plus a list of records,
    each of which binds a name, a description and a default to one field of
    that struct.  The C++ records hold raw pointers into the struct; here a
    record names the field it is bound to by an identifier, and writing
    through the pointer becomes a functional update of the struct. */
module HighsInfo {

  /** The value every primal and dual status starts with: "not set".  It is
      defined in HConst.h, which is not part of this model; the value -1 is
      the one the status records' descriptions give. */
  const kHighsPrimalDualStatusNotset: int := -1

  /** HighsInfoType: the type tag of a record. */
  datatype InfoType = kInt | kDouble

  /** The HighsInt fields of HighsInfoStruct, the targets of an
      InfoRecordInt's value pointer. */
  datatype IntField =
    | SimplexIterationCount | IpmIterationCount | CrossoverIterationCount
    | PrimalStatus | DualStatus
    | NumPrimalInfeasibilities | NumDualInfeasibilities

  /** The double fields of HighsInfoStruct, the targets of an
      InfoRecordDouble's value pointer. */
  datatype DoubleField =
    | ObjectiveFunctionValue | MipDualBound | MipGap
    | MaxPrimalInfeasibility | SumPrimalInfeasibilities
    | MaxDualInfeasibility | SumDualInfeasibilities

  /** Any field a record can be bound to. */
  datatype FieldId = IntId(i: IntField) | DoubleId(d: DoubleField)

  /** A field's value, of either type. */
  datatype Value = IntValue(iv: int) | DoubleValue(dv: real)

  /** HighsInfoStruct: every field, in declaration order.  HighsInt and
      int64_t become int, double becomes real. */
  datatype InfoStruct = InfoStruct(
    valid: bool,
    mipNodeCount: int,
    simplexIterationCount: int,
    ipmIterationCount: int,
    crossoverIterationCount: int,
    primalStatus: int,
    dualStatus: int,
    objectiveFunctionValue: real,
    mipDualBound: real,
    mipGap: real,
    numPrimalInfeasibilities: int,
    maxPrimalInfeasibility: real,
    sumPrimalInfeasibilities: real,
    numDualInfeasibilities: int,
    maxDualInfeasibility: real,
    sumDualInfeasibilities: real)

  function GetInt(d: InfoStruct, f: IntField): int {
    match f
    case SimplexIterationCount => d.simplexIterationCount
    case IpmIterationCount => d.ipmIterationCount
    case CrossoverIterationCount => d.crossoverIterationCount
    case PrimalStatus => d.primalStatus
    case DualStatus => d.dualStatus
    case NumPrimalInfeasibilities => d.numPrimalInfeasibilities
    case NumDualInfeasibilities => d.numDualInfeasibilities
  }

  function GetDouble(d: InfoStruct, f: DoubleField): real {
    match f
    case ObjectiveFunctionValue => d.objectiveFunctionValue
    case MipDualBound => d.mipDualBound
    case MipGap => d.mipGap
    case MaxPrimalInfeasibility => d.maxPrimalInfeasibility
    case SumPrimalInfeasibilities => d.sumPrimalInfeasibilities
    case MaxDualInfeasibility => d.maxDualInfeasibility
    case SumDualInfeasibilities => d.sumDualInfeasibilities
  }

  /** The value of field id of d. */
  function Read(d: InfoStruct, id: FieldId): Value {
    match id
    case IntId(f) => IntValue(GetInt(d, f))
    case DoubleId(f) => DoubleValue(GetDouble(d, f))
  }

  /** `*value = v` through a HighsInt pointer to field f: field f takes v
      and every other field keeps its value. */
  function SetInt(d: InfoStruct, f: IntField, v: int): InfoStruct {
    d.(simplexIterationCount := if f == SimplexIterationCount then v else d.simplexIterationCount,
       ipmIterationCount := if f == IpmIterationCount then v else d.ipmIterationCount,
       crossoverIterationCount := if f == CrossoverIterationCount then v else d.crossoverIterationCount,
       primalStatus := if f == PrimalStatus then v else d.primalStatus,
       dualStatus := if f == DualStatus then v else d.dualStatus,
       numPrimalInfeasibilities := if f == NumPrimalInfeasibilities then v else d.numPrimalInfeasibilities,
       numDualInfeasibilities := if f == NumDualInfeasibilities then v else d.numDualInfeasibilities)
  }

  /** `*value = v` through a double pointer to field f. */
  function SetDouble(d: InfoStruct, f: DoubleField, v: real): InfoStruct {
    d.(objectiveFunctionValue := if f == ObjectiveFunctionValue then v else d.objectiveFunctionValue,
       mipDualBound := if f == MipDualBound then v else d.mipDualBound,
       mipGap := if f == MipGap then v else d.mipGap,
       maxPrimalInfeasibility := if f == MaxPrimalInfeasibility then v else d.maxPrimalInfeasibility,
       sumPrimalInfeasibilities := if f == SumPrimalInfeasibilities then v else d.sumPrimalInfeasibilities,
       maxDualInfeasibility := if f == MaxDualInfeasibility then v else d.maxDualInfeasibility,
       sumDualInfeasibilities := if f == SumDualInfeasibilities then v else d.sumDualInfeasibilities)
  }

  /** What an InfoRecordInt or InfoRecordDouble adds to the base record:
      the field its value pointer points at, and its default_value. */
  datatype Binding =
    | IntBinding(intField: IntField, intDefault: int)
    | DoubleBinding(doubleField: DoubleField, doubleDefault: real)
  {
    function Field(): FieldId {
      match this
      case IntBinding(f, _) => IntId(f)
      case DoubleBinding(f, _) => DoubleId(f)
    }

    function Default(): Value {
      match this
      case IntBinding(_, v) => IntValue(v)
      case DoubleBinding(_, v) => DoubleValue(v)
    }
  }

  /** InfoRecord with its typed part. */
  datatype InfoRecord = InfoRecord(
    infoType: InfoType,
    name: string,
    description: string,
    advanced: bool,
    binding: Binding)

  /** The type tag agrees with the kind of field the record is bound to. */
  predicate WellTyped(r: InfoRecord) {
    r.infoType == kInt <==> r.binding.IntBinding?
  }

  /** The record an InfoRecordInt constructor builds. */
  function IntRecord(name: string, description: string, advanced: bool, f: IntField, v: int): (r: InfoRecord)
    ensures WellTyped(r) && r.infoType == kInt
    ensures r.binding.Field() == IntId(f) && r.binding.Default() == IntValue(v)
  {
    InfoRecord(kInt, name, description, advanced, IntBinding(f, v))
  }

  /** The record an InfoRecordDouble constructor builds. */
  function DoubleRecord(name: string, description: string, advanced: bool, f: DoubleField, v: real): (r: InfoRecord)
    ensures WellTyped(r) && r.infoType == kDouble
    ensures r.binding.Field() == DoubleId(f) && r.binding.Default() == DoubleValue(v)
  {
    InfoRecord(kDouble, name, description, advanced, DoubleBinding(f, v))
  }

  /** The constructor's write `*value = default_value`: the bound field
      takes the record's default and nothing else changes. */
  function Apply(d: InfoStruct, b: Binding): InfoStruct {
    match b
    case IntBinding(f, v) => SetInt(d, f, v)
    case DoubleBinding(f, v) => SetDouble(d, f, v)
  }

  /** Writing through a record's value pointer sets the bound field to the
      record's default and leaves every other field of the struct as it
      was. */
  lemma ApplyFrame(d: InfoStruct, b: Binding)
    ensures Read(Apply(d, b), b.Field()) == b.Default()
    ensures forall id :: id != b.Field() ==> Read(Apply(d, b), id) == Read(d, id)
    ensures Apply(d, b).valid == d.valid && Apply(d, b).mipNodeCount == d.mipNodeCount
  {
  }

  /** The struct after constructing, one after the other, records with
      the bindings bs. */
  function ApplyDefaults(d: InfoStruct, bs: seq<Binding>): InfoStruct
    decreases |bs|
  {
    if |bs| == 0 then d else Apply(ApplyDefaults(d, bs[..|bs| - 1]), bs[|bs| - 1])
  }

  /** The struct as initRecords leaves it: the twelve registered fields at
      their defaults, and valid, mip_node_count, mip_dual_bound and mip_gap,
      which no record is bound to, as they were. */
  function Defaulted(d: InfoStruct): InfoStruct {
    d.(simplexIterationCount := 0, ipmIterationCount := 0, crossoverIterationCount := 0,
       primalStatus := kHighsPrimalDualStatusNotset, dualStatus := kHighsPrimalDualStatusNotset,
       objectiveFunctionValue := 0.0,
       numPrimalInfeasibilities := -1, maxPrimalInfeasibility := 0.0, sumPrimalInfeasibilities := 0.0,
       numDualInfeasibilities := -1, maxDualInfeasibility := 0.0, sumDualInfeasibilities := 0.0)
  }

  /** The fields the bindings bs bind. */
  function Fields(bs: seq<Binding>): set<FieldId> {
    set i | 0 <= i < |bs| :: bs[i].Field()
  }

  /** No two of the bindings bs bind the same field. */
  predicate DistinctFields(bs: seq<Binding>) {
    forall i, j :: 0 <= i < j < |bs| ==> bs[i].Field() != bs[j].Field()
  }

  /** The name of each field of HighsInfoStruct, as spelled in the
      declaration of the struct. */
  function FieldName(id: FieldId): string {
    match id
    case IntId(SimplexIterationCount) => "simplex_iteration_count"
    case IntId(IpmIterationCount) => "ipm_iteration_count"
    case IntId(CrossoverIterationCount) => "crossover_iteration_count"
    case IntId(PrimalStatus) => "primal_status"
    case IntId(DualStatus) => "dual_status"
    case IntId(NumPrimalInfeasibilities) => "num_primal_infeasibilities"
    case IntId(NumDualInfeasibilities) => "num_dual_infeasibilities"
    case DoubleId(ObjectiveFunctionValue) => "objective_function_value"
    case DoubleId(MipDualBound) => "mip_dual_bound"
    case DoubleId(MipGap) => "mip_gap"
    case DoubleId(MaxPrimalInfeasibility) => "max_primal_infeasibility"
    case DoubleId(SumPrimalInfeasibilities) => "sum_primal_infeasibilities"
    case DoubleId(MaxDualInfeasibility) => "max_dual_infeasibility"
    case DoubleId(SumDualInfeasibilities) => "sum_dual_infeasibilities"
  }

  /** The field and default of the k-th record initRecords registers. */
  function RegisteredBinding(k: nat): Binding
    requires k < 12
  {
    match k
    case 0 => IntBinding(SimplexIterationCount, 0)
    case 1 => IntBinding(IpmIterationCount, 0)
    case 2 => IntBinding(CrossoverIterationCount, 0)
    case 3 => IntBinding(PrimalStatus, kHighsPrimalDualStatusNotset)
    case 4 => IntBinding(DualStatus, kHighsPrimalDualStatusNotset)
    case 5 => DoubleBinding(ObjectiveFunctionValue, 0.0)
    case 6 => IntBinding(NumPrimalInfeasibilities, -1)
    case 7 => DoubleBinding(MaxPrimalInfeasibility, 0.0)
    case 8 => DoubleBinding(SumPrimalInfeasibilities, 0.0)
    case 9 => IntBinding(NumDualInfeasibilities, -1)
    case 10 => DoubleBinding(MaxDualInfeasibility, 0.0)
    case _ => DoubleBinding(SumDualInfeasibilities, 0.0)
  }

  /** The name of the k-th record initRecords registers. */
  function RegisteredName(k: nat): string
    requires k < 12
  {
    match k
    case 0 => "simplex_iteration_count"
    case 1 => "ipm_iteration_count"
    case 2 => "crossover_iteration_count"
    case 3 => "primal_status"
    case 4 => "dual_status"
    case 5 => "objective_function_value"
    case 6 => "num_primal_infeasibilities"
    case 7 => "max_primal_infeasibility"
    case 8 => "sum_primal_infeasibilities"
    case 9 => "num_dual_infeasibilities"
    case 10 => "max_dual_infeasibility"
    case _ => "sum_dual_infeasibilities"
  }

  /** The description of the k-th record initRecords registers. */
  function RegisteredDescription(k: nat): string
    requires k < 12
  {
    match k
    case 0 => "Iteration count for simplex solver"
    case 1 => "Iteration count for IPM solver"
    case 2 => "Iteration count for crossover"
    case 3 => StatusDescription("Primal")
    case 4 => StatusDescription("Dual")
    case 5 => "Objective function value"
    case 6 => "Number of primal infeasibilities"
    case 7 => "Maximum primal infeasibility"
    case 8 => "Sum of primal infeasibilities"
    case 9 => "Number of dual infeasibilities"
    case 10 => "Maximum dual infeasibility"
    case _ => "Sum of dual infeasibilities"
  }

  /** The type tag an InfoRecordInt or InfoRecordDouble constructor gives
      a record bound by b. */
  function TypeOf(b: Binding): InfoType {
    if b.IntBinding? then kInt else kDouble
  }

  /** The k-th record initRecords registers.  None is advanced. */
  function Registered(k: nat): InfoRecord
    requires k < 12
  {
    InfoRecord(TypeOf(RegisteredBinding(k)), RegisteredName(k), RegisteredDescription(k), false, RegisteredBinding(k))
  }

  /** The records initRecords registers, in order. */
  function InfoRecords(): seq<InfoRecord> {
    seq(12, k requires 0 <= k < 12 => Registered(k))
  }

  /** The bindings of the records initRecords registers, in order. */
  function RegisteredBindings(): seq<Binding> {
    seq(12, k requires 0 <= k < 12 => RegisteredBinding(k))
  }

  /** Element k of the comprehensions above, for proofs that index them. */
  lemma RegisteredAt()
    ensures |InfoRecords()| == 12 && forall k :: 0 <= k < 12 ==> InfoRecords()[k] == Registered(k)
  {
  }

  /** Element k of RegisteredBindings(), likewise. */
  lemma RegisteredBindingsAt()
    ensures |RegisteredBindings()| == 12
    ensures forall k :: 0 <= k < 12 ==> RegisteredBindings()[k] == RegisteredBinding(k)
  {
  }

  /** The description shared by the primal_status and dual_status records. */
  function StatusDescription(which: string): string {
    which + " status of the model: -1 => Not set; 0 => No solution; 1 => "
      + "Unknown; 2 => Infeasible point; 3 => Feasible point"
  }

  /** Constructing records bound to distinct fields leaves each bound field
      at its record's default and every unbound field as it was. */
  lemma {:induction false} ApplyDefaultsSets(d: InfoStruct, bs: seq<Binding>)
    requires DistinctFields(bs)
    ensures forall i :: 0 <= i < |bs| ==> Read(ApplyDefaults(d, bs), bs[i].Field()) == bs[i].Default()
    ensures forall id :: id !in Fields(bs) ==> Read(ApplyDefaults(d, bs), id) == Read(d, id)
    ensures ApplyDefaults(d, bs).valid == d.valid && ApplyDefaults(d, bs).mipNodeCount == d.mipNodeCount
    decreases |bs|
  {
    if |bs| > 0 {
      var front, b := bs[..|bs| - 1], bs[|bs| - 1];
      assert bs == front + [b];
      ApplyDefaultsSets(d, front);
      ApplyFrame(ApplyDefaults(d, front), b);
      assert ApplyDefaults(d, bs) == Apply(ApplyDefaults(d, front), b);
      forall i | 0 <= i < |bs|
        ensures Read(ApplyDefaults(d, bs), bs[i].Field()) == bs[i].Default()
      {
        if i < |bs| - 1 {
          assert front[i] == bs[i];
        }
      }
      forall id | id !in Fields(bs)
        ensures Read(ApplyDefaults(d, bs), id) == Read(d, id)
      {
        assert id != b.Field();
      }
    }
  }

  /** initRecords registers the twelve records in this order. */
  lemma InfoRecordNames()
    ensures |InfoRecords()| == 12
    ensures InfoRecords()[0].name == "simplex_iteration_count"
    ensures InfoRecords()[1].name == "ipm_iteration_count"
    ensures InfoRecords()[2].name == "crossover_iteration_count"
    ensures InfoRecords()[3].name == "primal_status"
    ensures InfoRecords()[4].name == "dual_status"
    ensures InfoRecords()[5].name == "objective_function_value"
    ensures InfoRecords()[6].name == "num_primal_infeasibilities"
    ensures InfoRecords()[7].name == "max_primal_infeasibility"
    ensures InfoRecords()[8].name == "sum_primal_infeasibilities"
    ensures InfoRecords()[9].name == "num_dual_infeasibilities"
    ensures InfoRecords()[10].name == "max_dual_infeasibility"
    ensures InfoRecords()[11].name == "sum_dual_infeasibilities"
  {
    RegisteredAt();
  }

  /** The position at which initRecords registers the record bound to
      field id, or -1 for the two fields it does not register. */
  function SlotOf(id: FieldId): int {
    match id
    case IntId(SimplexIterationCount) => 0
    case IntId(IpmIterationCount) => 1
    case IntId(CrossoverIterationCount) => 2
    case IntId(PrimalStatus) => 3
    case IntId(DualStatus) => 4
    case DoubleId(ObjectiveFunctionValue) => 5
    case IntId(NumPrimalInfeasibilities) => 6
    case DoubleId(MaxPrimalInfeasibility) => 7
    case DoubleId(SumPrimalInfeasibilities) => 8
    case IntId(NumDualInfeasibilities) => 9
    case DoubleId(MaxDualInfeasibility) => 10
    case DoubleId(SumDualInfeasibilities) => 11
    case DoubleId(MipDualBound) => -1
    case DoubleId(MipGap) => -1
  }

  /** SlotOf inverts the registration: the k-th record is bound to the one
      field whose slot is k, and a field with a slot is bound there. */
  lemma SlotOfInverts(k: nat, id: FieldId)
    requires k < 12
    ensures SlotOf(RegisteredBinding(k).Field()) == k
    ensures 0 <= SlotOf(id) ==> SlotOf(id) < 12 && RegisteredBinding(SlotOf(id)).Field() == id
  {
  }

  /** Each registered record's binding, type tag and flag: the type tag is
      the one of its kind, and it is not advanced. */
  lemma InfoRecordsTyped()
    ensures |InfoRecords()| == 12
    ensures forall k :: 0 <= k < 12 ==> InfoRecords()[k].binding == RegisteredBindings()[k]
    ensures forall k :: 0 <= k < 12 ==> WellTyped(InfoRecords()[k]) && !InfoRecords()[k].advanced
  {
  }

  /** Every registered record is bound to the field its name names. */
  lemma NamesMatchFields(k: nat)
    requires k < 12
    ensures RegisteredName(k) == FieldName(RegisteredBinding(k).Field())
  {
  }

  /** No two registered records are bound to the same field. */
  lemma InfoRecordsDistinct()
    ensures DistinctFields(RegisteredBindings())
  {
    var bs := RegisteredBindings();
    forall i, j | 0 <= i < j < |bs|
      ensures bs[i].Field() != bs[j].Field()
    {
      SlotOfInverts(i, bs[i].Field());
      SlotOfInverts(j, bs[j].Field());
    }
  }

  /** The registered fields are every field but mip_dual_bound and mip_gap
      (valid and mip_node_count are not fields a record can point at). */
  lemma InfoRecordFields()
    ensures forall id :: id in Fields(RegisteredBindings()) <==> id != DoubleId(MipDualBound) && id != DoubleId(MipGap)
  {
    var bs := RegisteredBindings();
    forall id
      ensures id in Fields(bs) <==> id != DoubleId(MipDualBound) && id != DoubleId(MipGap)
    {
      if id in Fields(bs) {
        var k :| 0 <= k < 12 && bs[k].Field() == id;
        SlotOfInverts(k, id);
      }
      if id != DoubleId(MipDualBound) && id != DoubleId(MipGap) {
        SlotOfInverts(0, id);
        assert bs[SlotOf(id)].Field() == id;
      }
    }
  }

  /** Constructing the registered records one after the other, each
      writing its default through its pointer, leaves the struct as
      Defaulted says: the iteration counts are 0, both statuses are "not
      set", the infeasibility counts are -1, the five registered doubles
      are 0, and the four unregistered fields are as they were. */
  lemma InitRecordsDefaults(d: InfoStruct)
    ensures ApplyDefaults(d, RegisteredBindings()) == Defaulted(d)
  {
    var bs := RegisteredBindings();
    RegisteredBindingsAt();
    InfoRecordsDistinct();
    InfoRecordFields();
    ApplyDefaultsSets(d, bs);
    var e := ApplyDefaults(d, bs);
    assert Read(e, bs[0].Field()) == bs[0].Default();
    assert Read(e, bs[1].Field()) == bs[1].Default();
    assert Read(e, bs[2].Field()) == bs[2].Default();
    assert Read(e, bs[3].Field()) == bs[3].Default();
    assert Read(e, bs[4].Field()) == bs[4].Default();
    assert Read(e, bs[5].Field()) == bs[5].Default();
    assert Read(e, bs[6].Field()) == bs[6].Default();
    assert Read(e, bs[7].Field()) == bs[7].Default();
    assert Read(e, bs[8].Field()) == bs[8].Default();
    assert Read(e, bs[9].Field()) == bs[9].Default();
    assert Read(e, bs[10].Field()) == bs[10].Default();
    assert Read(e, bs[11].Field()) == bs[11].Default();
    assert Read(e, DoubleId(MipDualBound)) == Read(d, DoubleId(MipDualBound));
    assert Read(e, DoubleId(MipGap)) == Read(d, DoubleId(MipGap));
  }

  /** One step of initRecords: appending the k-th record extends the
      registered prefix by one. */
  lemma InitStep(r0: seq<InfoRecord>, k: nat, record: InfoRecord)
    requires k < 12 && record == InfoRecords()[k]
    ensures r0 + InfoRecords()[..k] + [record] == r0 + InfoRecords()[..k + 1]
  {
    var rs := InfoRecords();
    assert rs[..k + 1] == rs[..k] + [rs[k]];
  }

  /** The bindings of the table, entry by entry. */
  lemma RegisteredBindingValues()
    ensures RegisteredBinding(0) == IntBinding(SimplexIterationCount, 0)
    ensures RegisteredBinding(1) == IntBinding(IpmIterationCount, 0)
    ensures RegisteredBinding(2) == IntBinding(CrossoverIterationCount, 0)
    ensures RegisteredBinding(3) == IntBinding(PrimalStatus, kHighsPrimalDualStatusNotset)
    ensures RegisteredBinding(4) == IntBinding(DualStatus, kHighsPrimalDualStatusNotset)
    ensures RegisteredBinding(5) == DoubleBinding(ObjectiveFunctionValue, 0.0)
    ensures RegisteredBinding(6) == IntBinding(NumPrimalInfeasibilities, -1)
    ensures RegisteredBinding(7) == DoubleBinding(MaxPrimalInfeasibility, 0.0)
    ensures RegisteredBinding(8) == DoubleBinding(SumPrimalInfeasibilities, 0.0)
    ensures RegisteredBinding(9) == IntBinding(NumDualInfeasibilities, -1)
    ensures RegisteredBinding(10) == DoubleBinding(MaxDualInfeasibility, 0.0)
    ensures RegisteredBinding(11) == DoubleBinding(SumDualInfeasibilities, 0.0)
  {
  }

  /** HighsInfo: the struct's fields as one value, and the record list. */
  class HighsInfo {
    var data: InfoStruct
    var records: seq<InfoRecord>

    /** One step of initRecords that registers an InfoRecordInt: `new
        InfoRecordInt(name, description, advanced, &field, default)`, whose
        constructor writes the default into the field, then
        `records.push_back`.  The name and description are the literals of
        step k.  The ghost r0 is the list before initRecords began. */
    method RegisterInt(ghost r0: seq<InfoRecord>, k: nat, advanced: bool, f: IntField, v: int)
      requires k < 12 && RegisteredBinding(k) == IntBinding(f, v) && !advanced
      requires records == r0 + InfoRecords()[..k]
      modifies this
      ensures records == r0 + InfoRecords()[..k + 1]
      ensures data == SetInt(old(data), f, v)
    {
      var record := IntRecord(RegisteredName(k), RegisteredDescription(k), advanced, f, v);
      InitStep(r0, k, record);
      data := Apply(data, record.binding);
      records := records + [record];
    }

    /** The same for an InfoRecordDouble. */
    method RegisterDouble(ghost r0: seq<InfoRecord>, k: nat, advanced: bool, f: DoubleField, v: real)
      requires k < 12 && RegisteredBinding(k) == DoubleBinding(f, v) && !advanced
      requires records == r0 + InfoRecords()[..k]
      modifies this
      ensures records == r0 + InfoRecords()[..k + 1]
      ensures data == SetDouble(old(data), f, v)
    {
      var record := DoubleRecord(RegisteredName(k), RegisteredDescription(k), advanced, f, v);
      InitStep(r0, k, record);
      data := Apply(data, record.binding);
      records := records + [record];
    }

    /** Records 0 to 2 of initRecords: the three iteration counts. */
    method RegisterIterationCounts(ghost r0: seq<InfoRecord>, advanced: bool)
      requires !advanced && records == r0 + InfoRecords()[..0]
      modifies this
      ensures records == r0 + InfoRecords()[..3]
      ensures data == old(data).(simplexIterationCount := 0, ipmIterationCount := 0, crossoverIterationCount := 0)
    {
      RegisteredBindingValues();
      RegisterInt(r0, 0, advanced, SimplexIterationCount, 0);
      RegisterInt(r0, 1, advanced, IpmIterationCount, 0);
      RegisterInt(r0, 2, advanced, CrossoverIterationCount, 0);
    }

    /** Records 3 and 4 of initRecords: the primal and dual status. */
    method RegisterStatuses(ghost r0: seq<InfoRecord>, advanced: bool)
      requires !advanced && records == r0 + InfoRecords()[..3]
      modifies this
      ensures records == r0 + InfoRecords()[..5]
      ensures data == old(data).(primalStatus := kHighsPrimalDualStatusNotset, dualStatus := kHighsPrimalDualStatusNotset)
    {
      RegisteredBindingValues();
      RegisterInt(r0, 3, advanced, PrimalStatus, kHighsPrimalDualStatusNotset);
      RegisterInt(r0, 4, advanced, DualStatus, kHighsPrimalDualStatusNotset);
    }

    /** Records 6 to 8 of initRecords: the primal infeasibility count, maximum and sum. */
    method RegisterPrimalInfeasibilities(ghost r0: seq<InfoRecord>, advanced: bool)
      requires !advanced && records == r0 + InfoRecords()[..6]
      modifies this
      ensures records == r0 + InfoRecords()[..9]
      ensures data == old(data).(numPrimalInfeasibilities := -1, maxPrimalInfeasibility := 0.0, sumPrimalInfeasibilities := 0.0)
    {
      RegisteredBindingValues();
      RegisterInt(r0, 6, advanced, NumPrimalInfeasibilities, -1);
      RegisterDouble(r0, 7, advanced, MaxPrimalInfeasibility, 0.0);
      RegisterDouble(r0, 8, advanced, SumPrimalInfeasibilities, 0.0);
    }

    /** Records 9 to 11 of initRecords: the dual infeasibility count, maximum and sum. */
    method RegisterDualInfeasibilities(ghost r0: seq<InfoRecord>, advanced: bool)
      requires !advanced && records == r0 + InfoRecords()[..9]
      modifies this
      ensures records == r0 + InfoRecords()[..12]
      ensures data == old(data).(numDualInfeasibilities := -1, maxDualInfeasibility := 0.0, sumDualInfeasibilities := 0.0)
    {
      RegisteredBindingValues();
      RegisterInt(r0, 9, advanced, NumDualInfeasibilities, -1);
      RegisterDouble(r0, 10, advanced, MaxDualInfeasibility, 0.0);
      RegisterDouble(r0, 11, advanced, SumDualInfeasibilities, 0.0);
    }

    /** initRecords: constructs the twelve records in order, each writing
        its default, and appends each to `records`. */
    method InitRecords()
      modifies this
      ensures records == old(records) + InfoRecords()
      ensures data == Defaulted(old(data))
    {
      ghost var r0 := records;
      assert records == r0 + InfoRecords()[..0];
      var advanced := false;
      RegisterIterationCounts(r0, advanced);
      RegisterStatuses(r0, advanced);
      RegisteredBindingValues();
      RegisterDouble(r0, 5, advanced, ObjectiveFunctionValue, 0.0);
      RegisterPrimalInfeasibilities(r0, advanced);
      RegisterDualInfeasibilities(r0, advanced);
      assert InfoRecords()[..12] == InfoRecords();
    }

    /** HighsInfo(): the record list is built from empty.  The C++
        constructor leaves the struct's fields uninitialised before
        initRecords writes the registered ones; `initial` stands for those
        indeterminate contents. */
    constructor (initial: InfoStruct)
      ensures records == InfoRecords()
      ensures data == Defaulted(initial)
    {
      data := initial;
      records := [];
      new;
      InitRecords();
    }

    /** HighsInfo(const HighsInfo&): a fresh record list, then every struct
        field copied from info, overwriting the defaults. */
    constructor Copy(info: HighsInfo, initial: InfoStruct)
      ensures records == InfoRecords()
      ensures data == info.data
    {
      data := initial;
      records := [];
      new;
      InitRecords();
      data := info.data;
    }

    /** operator=(const HighsInfo&): self-assignment changes nothing;
        otherwise the records are built only when the list is empty, and
        every struct field is copied from other. */
    method Assign(other: HighsInfo)
      modifies this
      ensures other == this ==> data == old(data) && records == old(records)
      ensures other != this ==> data == old(other.data)
      ensures other != this ==> records == if old(records) == [] then InfoRecords() else old(records)
    {
      if other != this {
        if |records| == 0 {
          InitRecords();
        }
        data := other.data;
      }
    }

    /** operator=(HighsInfo&&): the same body as the copy assignment; it
        copies the struct rather than moving anything. */
    method MoveAssign(other: HighsInfo)
      modifies this
      ensures other == this ==> data == old(data) && records == old(records)
      ensures other != this ==> data == old(other.data)
      ensures other != this ==> records == if old(records) == [] then InfoRecords() else old(records)
    {
      Assign(other);
    }
  }
}
