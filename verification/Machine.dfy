/** The fixed-width integers, byte strings and error codes that every other module shares. */
module Machine {

  type u8 = x: int | 0 <= x < 0x100
  type u16 = x: int | 0 <= x < 0x1_0000
  type u32 = x: int | 0 <= x < 0x1_0000_0000
  type u64 = x: int | 0 <= x < 0x1_0000_0000_0000_0000

  type i32 = x: int | -0x8000_0000 <= x < 0x8000_0000

  const UINT32_MAX: u32 := 0xFFFF_FFFF

  type Bytes = seq<u8>

  /** A 20-byte account address, a 32-byte public key and a 64-byte signature. */
  type Address = b: Bytes | |b| == 20 witness seq(20, _ => 0)
  type PublicKey = b: Bytes | |b| == 32 witness seq(32, _ => 0)
  type Signature = b: Bytes | |b| == 64 witness seq(64, _ => 0)

  const TRANSACTION_VERSION_LEGACY: u8 := 0
  const TRANSACTION_VERSION_ALBATROSS: u8 := 1

  const ACCOUNT_TYPE_BASIC: u8 := 0
  const ACCOUNT_TYPE_VESTING: u8 := 1
  const ACCOUNT_TYPE_HTLC: u8 := 2
  const ACCOUNT_TYPE_STAKING: u8 := 3

  /** The error codes of functions that do not speak the APDU protocol. */
  datatype Error = Read | InvalidLength | IncorrectData | NotSupported

  /** Success with a value, or one of the error codes. */
  datatype Result<+T> = Ok(value: T) | Err(error: Error) {
    predicate IsFailure() {
      Err?
    }

    function PropagateFailure<U>(): Result<U>
      requires Err?
    {
      Err(error)
    }

    function Extract(): T
      requires Ok?
    {
      value
    }
  }

  datatype Option<+T> = None | Some(value: T) {
    predicate IsFailure() {
      None?
    }

    function PropagateFailure<U>(): Option<U>
      requires None?
    {
      None
    }

    function Extract(): T
      requires Some?
    {
      value
    }

    /** A read that found nothing is reported with the given error code. */
    function OrElse(e: Error): Result<T> {
      if Some? then Ok(value) else Err(e)
    }
  }

  /** APDU status words that the modelled commands answer with. */
  datatype StatusWord =
    | SwOk
    | SwIncorrectData
    | SwNotSupported
    | SwWrongP1P2
    | SwWrongDataLength
    | SwCryptographyFail

  /** Status word of an error code. */
  function ErrorToSw(e: Error): StatusWord {
    match e
    case Read => SwWrongDataLength
    case InvalidLength => SwWrongDataLength
    case IncorrectData => SwIncorrectData
    case NotSupported => SwNotSupported
  }

  /** A C string is what stands before the first terminator of its buffer. */
  function CString(buffer: seq<char>): string {
    if buffer == [] || buffer[0] == '\0' then [] else [buffer[0]] + CString(buffer[1..])
  }

  lemma CStringOf(text: string, buffer: seq<char>)
    requires |text| < |buffer| && buffer[..|text|] == text && buffer[|text|] == '\0'
    requires '\0' !in text
    ensures CString(buffer) == text
  {
    if text == [] {
    } else {
      assert buffer[0] == text[0];
      assert text[0] in text;
      assert buffer[1..][..|text| - 1] == text[1..];
      CStringOf(text[1..], buffer[1..]);
    }
  }
}
