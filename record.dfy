/**
 * The `eventT` record the kernel-side probe writes into the ring buffer,
 * and its decoding by `binary.Read(bytes.NewBuffer(sample),
 * binary.LittleEndian, &event)`.
 *
 * Layout (180 bytes, no padding):
 *   Pid      int32     bytes   0..3   little-endian two's complement
 *   Comm     [16]byte  bytes   4..19
 *   Username [80]byte  bytes  20..99
 *   Password [80]byte  bytes 100..179
 */
module Record {
  import opened Wrappers
  import opened Bytes

  const CommLen: nat := 16
  const TextLen: nat := 80

  const CommOffset: nat := 4
  const UsernameOffset: nat := 20
  const PasswordOffset: nat := 100
  /** `binary.Size(eventT{})`. */
  const EventSize: nat := 180

  /** Go's `[16]byte`, the `Comm` field. */
  type CommBuf = s: seq<byte> | |s| == 16 witness seq(16, _ => 0)

  /** Go's `[80]byte`, the `Username` and `Password` fields. */
  type TextBuf = s: seq<byte> | |s| == 80 witness seq(80, _ => 0)

  datatype Event = Event(pid: int32, comm: CommBuf, username: TextBuf, password: TextBuf)

  /**
   * Why `binary.Read` rejects a sample: it reads the whole record with
   * `io.ReadFull`, which reports `io.EOF` when the sample is empty and
   * `io.ErrUnexpectedEOF` when it holds some but too few bytes.
   */
  datatype DecodeError = EOF | UnexpectedEOF

  /** The zero value of `eventT`, as `var event eventT` declares it. */
  function ZeroEvent(): (e: Event)
    ensures e.pid == 0
    ensures forall j :: 0 <= j < CommLen ==> e.comm[j] == 0
    ensures forall j :: 0 <= j < TextLen ==> e.username[j] == 0 && e.password[j] == 0
  {
    Event(0, seq(16, _ => 0), seq(80, _ => 0), seq(80, _ => 0))
  }

  /** The 180 bytes the kernel-side probe writes for an event. */
  function Encode(e: Event): (r: seq<byte>)
    ensures |r| == EventSize
    ensures r[..CommOffset] == EncodeInt32LE(e.pid)
    ensures r[CommOffset..UsernameOffset] == e.comm
    ensures r[UsernameOffset..PasswordOffset] == e.username
    ensures r[PasswordOffset..EventSize] == e.password
  {
    var r := EncodeInt32LE(e.pid) + e.comm + e.username + e.password;
    assert r[PasswordOffset..] == e.password;
    r
  }

  /**
   * `binary.Read` of a ring-buffer sample into an `eventT`: the first 180
   * bytes are interpreted by the layout and any bytes after them are left
   * unread; a sample shorter than 180 bytes is an error.
   */
  function Decode(sample: seq<byte>): (r: Result<Event, DecodeError>)
    ensures r.Success? <==> |sample| >= EventSize
    ensures r == Failure(EOF) <==> |sample| == 0
    ensures r.Success? ==> r.value.pid as int % TwoTo32 == Uint32LE(sample[..CommOffset])
  {
    if |sample| == 0 then
      Failure(EOF)
    else if |sample| < EventSize then
      Failure(UnexpectedEOF)
    else
      Success(Event(DecodeInt32LE(sample[..CommOffset]),
                    sample[CommOffset..UsernameOffset],
                    sample[UsernameOffset..PasswordOffset],
                    sample[PasswordOffset..EventSize]))
  }

  /**
   * Field by field, a sample of at least 180 bytes decodes to the
   * little-endian `int32` of bytes 0..3 (negative exactly when the top bit
   * of byte 3 is set) and the raw bytes 4..19, 20..99 and 100..179.
   */
  lemma DecodeFields(sample: seq<byte>)
    requires |sample| >= EventSize
    ensures Decode(sample).Success?
    ensures Decode(sample).value.pid as int % TwoTo32
            == sample[0] as int + 0x100 * sample[1] as int
               + 0x1_0000 * sample[2] as int + 0x100_0000 * sample[3] as int
    ensures Decode(sample).value.pid < 0 <==> sample[3] >= 0x80
    ensures Decode(sample).value.comm == sample[4..20]
    ensures Decode(sample).value.username == sample[20..100]
    ensures Decode(sample).value.password == sample[100..180]
  {
    var head := sample[..CommOffset];
    assert head[0] == sample[0] && head[1] == sample[1] && head[2] == sample[2] && head[3] == sample[3];
  }

  /** Any sample of fewer than 180 bytes is rejected, whatever it holds. */
  lemma DecodeShort(sample: seq<byte>)
    requires |sample| < EventSize
    ensures Decode(sample) == if |sample| == 0 then Failure(EOF) else Failure(UnexpectedEOF)
  {
  }

  /** Decoding the 180 bytes of an event gives the event back. */
  lemma DecodeEncode(e: Event)
    ensures Decode(Encode(e)) == Success(e)
  {
    DecodeEncodeTrailing(e, []);
  }

  /** Bytes after the record do not change the decoded event. */
  lemma DecodeEncodeTrailing(e: Event, extra: seq<byte>)
    ensures Decode(Encode(e) + extra) == Success(e)
  {
    var s := Encode(e) + extra;
    assert s[..CommOffset] == EncodeInt32LE(e.pid);
    DecodeEncodeInt32(e.pid);
    assert s[CommOffset..UsernameOffset] == e.comm;
    assert s[UsernameOffset..PasswordOffset] == e.username;
    assert s[PasswordOffset..EventSize] == e.password;
  }

  /**
   * Conversely, a decoded sample re-encodes to its first 180 bytes: the
   * decoder reads every byte of the record and no byte past it.
   */
  lemma EncodeDecode(sample: seq<byte>)
    requires |sample| >= EventSize
    ensures Decode(sample).Success?
    ensures Encode(Decode(sample).value) == sample[..EventSize]
  {
    var e := Decode(sample).value;
    EncodeDecodeInt32(sample[..CommOffset]);
    assert Encode(e) == sample[..CommOffset] + sample[CommOffset..UsernameOffset]
                        + sample[UsernameOffset..PasswordOffset] + sample[PasswordOffset..EventSize];
  }

  /** Only the first 180 bytes of a sample matter. */
  lemma DecodeIgnoresTrailing(sample: seq<byte>, extra: seq<byte>)
    requires |sample| >= EventSize
    ensures Decode(sample + extra) == Decode(sample)
  {
    var s := sample + extra;
    assert s[..CommOffset] == sample[..CommOffset];
    assert s[CommOffset..UsernameOffset] == sample[CommOffset..UsernameOffset];
    assert s[UsernameOffset..PasswordOffset] == sample[UsernameOffset..PasswordOffset];
    assert s[PasswordOffset..EventSize] == sample[PasswordOffset..EventSize];
  }

  /** 180 zero bytes decode to the zero event, whose text fields are empty. */
  lemma DecodeZeroRecord()
    ensures Decode(seq(EventSize, _ => 0)) == Success(ZeroEvent())
  {
    var z: seq<byte> := seq(EventSize, _ => 0);
    var e := Decode(z).value;
    assert z[..CommOffset] == [0, 0, 0, 0];
    assert e.comm == ZeroEvent().comm;
    assert e.username == ZeroEvent().username;
    assert e.password == ZeroEvent().password;
  }
}
