// The option record of ev-sdk/common/storage/sm_ev_opt_storage.c: several settings
// share one CRC-guarded record, and every store is a load-modify-store of the whole record.
module OptStore {
  import opened Arithmetic
  import opened ConfigStore
  import opened Crc16
  import opened Words

  const STORAGE_SIZE: nat := 64
  const DATA_SIZE: nat := 48

  type Uuid = u: seq<Byte> | |u| == 32 witness seq(32, _ => 0)

  /** `sm_ev_opt_data_t`. */
  datatype Options = Options(maxSpeed: Int32, driverMode: Int32, inactiveMode: Int32, inactiveOdo: Uint32, uuid: Uuid)

  /** What a load gives when there is no valid record. */
  function Defaults(): Options {
    Options(-1, -1, -1, 0, seq(32, _ => 0))
  }

  // ----- integers as bytes -------------------------------------------------------------------

  /** The low `k` bits of `n`, most significant first. */
  function BitsOfNat(n: nat, k: nat): (b: Bits)
    ensures |b| == k
    decreases k
  {
    if k == 0 then [] else BitsOfNat(n / 2, k - 1) + [n % 2 == 1]
  }

  function NatOfBits(b: Bits): nat {
    if b == [] then 0 else 2 * NatOfBits(b[..|b| - 1]) + (if b[|b| - 1] then 1 else 0)
  }

  lemma {:induction false} NatBits(n: nat, k: nat)
    requires n < Pow2(k)
    ensures NatOfBits(BitsOfNat(n, k)) == n
    decreases k
  {
    if k > 0 {
      NatBits(n / 2, k - 1);
      var b := BitsOfNat(n, k);
      assert b[..|b| - 1] == BitsOfNat(n / 2, k - 1);
    }
  }

  function ToByte(n: nat): Byte {
    ByteOf(BitsOfNat(n, 8))
  }

  function FromByte(b: Byte): nat {
    NatOfBits(BitsOfByte(b))
  }

  lemma ByteExact(n: nat)
    requires n < 256
    ensures FromByte(ToByte(n)) == n
  {
    PowersOfTwo();
    ByteOfBits(BitsOfNat(n, 8));
    NatBits(n, 8);
  }

  /** A 32-bit word in memory order, low byte first. */
  function PutUint32(n: Uint32): (b: seq<Byte>)
    ensures |b| == 4
  {
    [ToByte(n % 256), ToByte(n / 256 % 256), ToByte(n / 0x1_0000 % 256), ToByte(n / 0x100_0000 % 256)]
  }

  /** The value of four bytes as an unsigned word. */
  function GetUint32(b: seq<Byte>): Uint32
    requires |b| == 4
  {
    var n := FromByte(b[0]) + 256 * FromByte(b[1]) + 0x1_0000 * FromByte(b[2]) + 0x100_0000 * FromByte(b[3]);
    n % 0x1_0000_0000
  }

  lemma FourBytes(n: Uint32)
    ensures n % 256 + 256 * (n / 256 % 256) + 0x1_0000 * (n / 0x1_0000 % 256) + 0x100_0000 * (n / 0x100_0000 % 256) == n
  {
    var a := n / 256;
    var b := a / 256;
    assert n / 0x1_0000 == b && n / 0x100_0000 == b / 256;
    assert b / 256 < 256;
  }

  lemma FromFour(a: nat, b: nat, c: nat, d: nat)
    requires a < 256 && b < 256 && c < 256 && d < 256
    ensures GetUint32([ToByte(a), ToByte(b), ToByte(c), ToByte(d)]) == a + 256 * b + 0x1_0000 * c + 0x100_0000 * d
  {
    hide ToByte, FromByte;
    ByteExact(a);
    ByteExact(b);
    ByteExact(c);
    ByteExact(d);
  }

  lemma Uint32Exact(n: Uint32)
    ensures GetUint32(PutUint32(n)) == n
  {
    hide ToByte, FromByte;
    var a, b, c, d := n % 256, n / 256 % 256, n / 0x1_0000 % 256, n / 0x100_0000 % 256;
    FourBytes(n);
    FromFour(a, b, c, d);
    hide GetUint32;
  }

  function ToUnsigned(x: Int32): Uint32 {
    if x < 0 then x + 0x1_0000_0000 else x
  }

  function ToSigned(n: Uint32): (x: Int32)
    ensures x == n || x == n - 0x1_0000_0000
  {
    if n >= 0x8000_0000 then n - 0x1_0000_0000 else n
  }

  // ----- the record -----------------------------------------------------------------------------

  function Serialize(o: Options): (b: seq<Byte>)
    ensures |b| == DATA_SIZE
  {
    PutUint32(ToUnsigned(o.maxSpeed)) + PutUint32(ToUnsigned(o.driverMode)) + PutUint32(ToUnsigned(o.inactiveMode))
    + PutUint32(o.inactiveOdo) + o.uuid
  }

  function Deserialize(b: seq<Byte>): Options
    requires |b| == DATA_SIZE
  {
    Options(ToSigned(GetUint32(b[0..4])), ToSigned(GetUint32(b[4..8])), ToSigned(GetUint32(b[8..12])),
            GetUint32(b[12..16]), b[16..48])
  }

  lemma Slices(a: seq<Byte>, b: seq<Byte>, c: seq<Byte>, d: seq<Byte>, e: seq<Byte>)
    requires |a| == |b| == |c| == |d| == 4 && |e| == 32
    ensures var s := a + b + c + d + e;
      s[0..4] == a && s[4..8] == b && s[8..12] == c && s[12..16] == d && s[16..48] == e
  {
    assert a + b + c + d + e == a + (b + (c + (d + e)));
  }

  lemma SerializeExact(o: Options)
    ensures Deserialize(Serialize(o)) == o
  {
    hide PutUint32, GetUint32;
    Uint32Exact(ToUnsigned(o.maxSpeed));
    Uint32Exact(ToUnsigned(o.driverMode));
    Uint32Exact(ToUnsigned(o.inactiveMode));
    Uint32Exact(o.inactiveOdo);
    Slices(PutUint32(ToUnsigned(o.maxSpeed)), PutUint32(ToUnsigned(o.driverMode)),
           PutUint32(ToUnsigned(o.inactiveMode)), PutUint32(o.inactiveOdo), o.uuid);
  }

  /** The four bytes from `at` on hold `n`, low byte first. */
  ghost predicate WordAt(b: seq<Byte>, at: nat, n: Uint32)
    requires at + 4 <= |b|
  {
    && FromByte(b[at]) == n % 256
    && FromByte(b[at + 1]) == n / 0x100 % 256
    && FromByte(b[at + 2]) == n / 0x1_0000 % 256
    && FromByte(b[at + 3]) == n / 0x100_0000 % 256
  }

  lemma PutAt(n: Uint32)
    ensures WordAt(PutUint32(n), 0, n)
  {
    hide ToByte, FromByte;
    ByteExact(n % 256);
    ByteExact(n / 256 % 256);
    ByteExact(n / 0x1_0000 % 256);
    ByteExact(n / 0x100_0000 % 256);
  }

  lemma Placed(b: seq<Byte>, at: nat, w: seq<Byte>, n: Uint32)
    requires at + 4 <= |b| && |w| == 4 && b[at..at + 4] == w && WordAt(w, 0, n)
    ensures WordAt(b, at, n)
  {
    hide FromByte;
    assert forall i :: 0 <= i < 4 ==> b[at + i] == w[i];
  }

  /** The place of every field in the record, negative numbers in two's complement. */
  lemma Layout(o: Options)
    ensures var b := Serialize(o);
      && WordAt(b, 0, o.maxSpeed % 0x1_0000_0000) && WordAt(b, 4, o.driverMode % 0x1_0000_0000)
      && WordAt(b, 8, o.inactiveMode % 0x1_0000_0000) && WordAt(b, 12, o.inactiveOdo) && b[16..] == o.uuid
  {
    hide PutUint32, WordAt;
    var x, y, z := ToUnsigned(o.maxSpeed), ToUnsigned(o.driverMode), ToUnsigned(o.inactiveMode);
    assert x == o.maxSpeed % 0x1_0000_0000 && y == o.driverMode % 0x1_0000_0000 && z == o.inactiveMode % 0x1_0000_0000;
    Slices(PutUint32(x), PutUint32(y), PutUint32(z), PutUint32(o.inactiveOdo), o.uuid);
    PutAt(x);
    PutAt(y);
    PutAt(z);
    PutAt(o.inactiveOdo);
    Placed(Serialize(o), 0, PutUint32(x), x);
    Placed(Serialize(o), 4, PutUint32(y), y);
    Placed(Serialize(o), 8, PutUint32(z), z);
    Placed(Serialize(o), 12, PutUint32(o.inactiveOdo), o.inactiveOdo);
  }

  /** The options that the 64 bytes in flash stand for: those of a valid record, else the defaults. */
  function Stored(image: seq<Byte>): Options
    requires |image| == STORAGE_SIZE
  {
    match Decode(image, DATA_SIZE)
    case Valid(data) => Deserialize(data)
    case _ => Defaults()
  }

  /** The 64 bytes written for given options. */
  function Image(o: Options): (b: seq<Byte>)
    ensures |b| == STORAGE_SIZE
  {
    Encode(Serialize(o), seq(STORAGE_SIZE - HEADER - DATA_SIZE, _ => 0))
  }

  /** What is written is what the next load finds. */
  lemma StoredImage(o: Options)
    ensures Stored(Image(o)) == o
  {
    hide Encode, Decode, Serialize, Deserialize;
    StoreThenLoad(Serialize(o), seq(STORAGE_SIZE - HEADER - DATA_SIZE, _ => 0));
    SerializeExact(o);
  }

  // ----- runs --------------------------------------------------------------------------------------

  /** What the flash driver does.  A failing write leaves the flash as it was.  A failing read leaves the zeroed
      buffer as it was; the source does not look at its result. */
  datatype Io = Done | WriteFailed | ReadFailed

  /** One store or clear. */
  datatype Op =
    | StoreMaxSpeed(speed: Int32, io: Io)
    | StoreDriveMode(mode: Int32, io: Io)
    | StoreInactiveMode(state: Int32, odo: Uint32, io: Io)
    | StoreUuid(data: seq<Byte>, io: Io)
    | Clear(io: Io)

  /** The identifier is copied into 32 zeroed bytes. */
  function PadUuid(data: seq<Byte>): (u: Uuid)
    requires |data| <= 32
    ensures data <= u && forall i :: |data| <= i < 32 ==> u[i] == 0
  {
    data + seq(32 - |data|, _ => 0)
  }

  /** Identifiers must fit their field. */
  predicate Fits(op: Op) {
    op.StoreUuid? ==> |op.data| <= 32
  }

  function Modify(o: Options, op: Op): Options
    requires Fits(op)
  {
    match op
    case StoreMaxSpeed(v, _) => o.(maxSpeed := v)
    case StoreDriveMode(v, _) => o.(driverMode := v)
    case StoreInactiveMode(m, odo, _) => o.(inactiveMode := m, inactiveOdo := odo)
    case StoreUuid(d, _) => o.(uuid := PadUuid(d))
    case Clear(_) => Defaults()
  }

  function Erased(): (b: seq<Byte>)
    ensures |b| == STORAGE_SIZE
  {
    seq(STORAGE_SIZE, _ => 0xFF)
  }

  /** What a load finds. */
  function Found(image: seq<Byte>, io: Io): Options
    requires |image| == STORAGE_SIZE
  {
    if io.ReadFailed? then Defaults() else Stored(image)
  }

  /** The flash after an operation: load the record, change one field, write the whole record back. */
  function Apply(image: seq<Byte>, op: Op): (b: seq<Byte>)
    requires |image| == STORAGE_SIZE && Fits(op)
    ensures |b| == STORAGE_SIZE
  {
    if op.io.WriteFailed? then image
    else if op.Clear? then Erased()
    else Image(Modify(Found(image, op.io), op))
  }

  function Run(image: seq<Byte>, ops: seq<Op>): (b: seq<Byte>)
    requires |image| == STORAGE_SIZE && forall i :: 0 <= i < |ops| ==> Fits(ops[i])
    ensures |b| == STORAGE_SIZE
  {
    if ops == [] then image else Apply(Run(image, ops[..|ops| - 1]), ops[|ops| - 1])
  }

  /** An erased record gives -1 for the numbers, 0 for the odometer and an identifier of zeros. */
  lemma ErasedEmpty()
    ensures Stored(Erased()) == Defaults() == Options(-1, -1, -1, 0, seq(32, _ => 0))
  {
    hide Crc, GetUint16;
    assert Erased()[..4][0] == 0xFF;
  }

  lemma ApplyStored(image: seq<Byte>, op: Op)
    requires |image| == STORAGE_SIZE && Fits(op)
    ensures Stored(Apply(image, op)) == if op.io.WriteFailed? then Stored(image) else Modify(Found(image, op.io), op)
  {
    hide Decode, Image, Encode;
    if !op.io.WriteFailed? {
      if op.Clear? {
        ErasedEmpty();
      } else {
        StoredImage(Modify(Found(image, op.io), op));
      }
    }
  }

  /** The operation gives every field that it does not set itself its default: a clear, or a store that could not
      read the record. */
  predicate Forgets(op: Op) {
    !op.io.WriteFailed? && (op.Clear? || op.io.ReadFailed?)
  }

  /** The last value that a run gives to one field, `init` if it gives none. */
  function LastSpeed(ops: seq<Op>, init: Int32): Int32 {
    if ops == [] then init else
      var op := ops[|ops| - 1];
      if op.StoreMaxSpeed? && !op.io.WriteFailed? then op.speed
      else if Forgets(op) then Defaults().maxSpeed
      else LastSpeed(ops[..|ops| - 1], init)
  }

  function LastDriveMode(ops: seq<Op>, init: Int32): Int32 {
    if ops == [] then init else
      var op := ops[|ops| - 1];
      if op.StoreDriveMode? && !op.io.WriteFailed? then op.mode
      else if Forgets(op) then Defaults().driverMode
      else LastDriveMode(ops[..|ops| - 1], init)
  }

  function LastInactive(ops: seq<Op>, init: (Int32, Uint32)): (Int32, Uint32) {
    if ops == [] then init else
      var op := ops[|ops| - 1];
      if op.StoreInactiveMode? && !op.io.WriteFailed? then (op.state, op.odo)
      else if Forgets(op) then (Defaults().inactiveMode, Defaults().inactiveOdo)
      else LastInactive(ops[..|ops| - 1], init)
  }

  function LastUuid(ops: seq<Op>, init: Uuid): Uuid
    requires forall i :: 0 <= i < |ops| ==> Fits(ops[i])
  {
    if ops == [] then init else
      var op := ops[|ops| - 1];
      assert Fits(op);
      if op.StoreUuid? && !op.io.WriteFailed? then PadUuid(op.data)
      else if Forgets(op) then Defaults().uuid
      else LastUuid(ops[..|ops| - 1], init)
  }

  /** From any flash content and after any run, every load returns the last value stored to its field, otherwise
      the initially valid value or the default: the fields of the shared record do not interfere, except that a store
      that could not read the record resets all other fields. */
  lemma {:induction false} LastValueWins(image: seq<Byte>, ops: seq<Op>)
    requires |image| == STORAGE_SIZE && forall i :: 0 <= i < |ops| ==> Fits(ops[i])
    ensures var first, last := Stored(image), Stored(Run(image, ops));
      && last.maxSpeed == LastSpeed(ops, first.maxSpeed)
      && last.driverMode == LastDriveMode(ops, first.driverMode)
      && (last.inactiveMode, last.inactiveOdo) == LastInactive(ops, (first.inactiveMode, first.inactiveOdo))
      && last.uuid == LastUuid(ops, first.uuid)
  {
    hide Stored, Apply;
    if ops != [] {
      LastValueWins(image, ops[..|ops| - 1]);
      ApplyStored(Run(image, ops[..|ops| - 1]), ops[|ops| - 1]);
    }
  }

  // ----- the object --------------------------------------------------------------------------------------

  lemma SpliceSame(flash: seq<Byte>, start: nat, n: nat)
    requires start + n <= |flash|
    ensures Splice(flash, start, flash[start..start + n]) == flash
  {
  }

  class OptStorage {
    var flash: seq<Byte>
    const start: nat

    ghost predicate Ready()
      reads this
    {
      start + STORAGE_SIZE <= |flash|
    }

    constructor (f: seq<Byte>, startAddress: nat)
      requires startAddress + STORAGE_SIZE <= |f|
      ensures Ready() && flash == f && start == startAddress
    {
      flash, start := f, startAddress;
    }

    /** The bytes of the record. */
    ghost function Window(): (b: seq<Byte>)
      requires Ready()
      reads this
      ensures |b| == STORAGE_SIZE
    {
      flash[start..start + STORAGE_SIZE]
    }

    /** `sm_ev_opt_load_data`.  The result of the flash read is not looked at: when it fails, the zeroed buffer has no
        magic number. */
    method LoadData(readOk: bool) returns (o: Options, r: int)
      requires Ready()
      ensures o == if readOk then Stored(Window()) else Defaults()
      ensures r == if readOk && Decode(Window(), DATA_SIZE).Valid? then 0 else -1
    {
      hide Crc, GetUint16, Deserialize;
      ghost var window := flash[start..start + STORAGE_SIZE];
      var buff := new Byte[STORAGE_SIZE](_ => 0);
      if readOk {
        forall i | 0 <= i < STORAGE_SIZE {
          buff[i] := flash[start + i];
        }
        assert buff[..] == window;
      }
      assert !readOk ==> buff[..4][0] == 0;
      var crc := GetUint16(buff[4], buff[5]);
      var expected := CalculateCrc16(buff, HEADER, DATA_SIZE);
      assert readOk ==> buff[HEADER..HEADER + DATA_SIZE] == window[HEADER..HEADER + DATA_SIZE];
      if buff[..4] != [MAGIC, MAGIC, MAGIC, MAGIC] || crc != expected {
        return Defaults(), -1;
      }
      return Deserialize(buff[HEADER..HEADER + DATA_SIZE]), 0;
    }

    /** `sm_ev_opt_storage_data`. */
    method StoreData(o: Options, ok: bool) returns (r: int)
      requires Ready()
      modifies this
      ensures Ready() && flash == Splice(old(flash), start, Window())
      ensures Window() == (if ok then Image(o) else old(Window())) && r == if ok then 0 else -1
    {
      hide Serialize, Encode, Splice;
      var bytes := Serialize(o);
      var data := new Byte[DATA_SIZE](i requires 0 <= i => if i < |bytes| then bytes[i] else 0);
      assert data[..] == bytes;
      var buff := BuildRecord(data, STORAGE_SIZE, 0);
      assert buff[HEADER + DATA_SIZE..] == seq(STORAGE_SIZE - HEADER - DATA_SIZE, _ => 0);
      if ok {
        flash := Splice(flash, start, buff[..]);
        return 0;
      }
      SpliceSame(flash, start, STORAGE_SIZE);
      return -1;
    }

    /** Every store function: load, change one field, write back. */
    method StoreField(op: Op) returns (r: int)
      requires Ready() && Fits(op) && !op.Clear?
      modifies this
      ensures Ready() && flash == Splice(old(flash), start, Window())
      ensures Window() == Apply(old(Window()), op) && r == if op.io.WriteFailed? then -1 else 0
    {
      hide Decode, Encode, Serialize, Splice;
      var o, _ := LoadData(!op.io.ReadFailed?);
      match op {
        case StoreMaxSpeed(v, _) => o := o.(maxSpeed := v);
        case StoreDriveMode(v, _) => o := o.(driverMode := v);
        case StoreInactiveMode(m, odo, _) => o := o.(inactiveMode := m, inactiveOdo := odo);
        case StoreUuid(d, _) => o := o.(uuid := PadUuid(d));
      }
      r := StoreData(o, !op.io.WriteFailed?);
    }

    method LoadMaxSpeed(io: Io) returns (v: Int32)
      requires Ready()
      ensures v == Found(Window(), io).maxSpeed
    {
      var o, _ := LoadData(!io.ReadFailed?);
      v := o.maxSpeed;
    }

    method LoadDriveMode(io: Io) returns (v: Int32)
      requires Ready()
      ensures v == Found(Window(), io).driverMode
    {
      var o, _ := LoadData(!io.ReadFailed?);
      v := o.driverMode;
    }

    method LoadInactiveMode(io: Io) returns (mode: Int32, odo: Uint32)
      requires Ready()
      ensures mode == Found(Window(), io).inactiveMode && odo == Found(Window(), io).inactiveOdo
    {
      var o, _ := LoadData(!io.ReadFailed?);
      mode, odo := o.inactiveMode, o.inactiveOdo;
    }

    method LoadUuid(io: Io) returns (v: Uuid)
      requires Ready()
      ensures v == Found(Window(), io).uuid
    {
      var o, _ := LoadData(!io.ReadFailed?);
      v := o.uuid;
    }
  }
}
