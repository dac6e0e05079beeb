/** Modbus wire facts: what a request may ask for, and which bank a function code speaks to. */
module RtuProtocol {
  import opened Common

  /** Largest data block any read or write carries. */
  const MAX_DATA_BYTES := 250

  /** Longest RTU message: address, function, byte count, 252 data bytes and the check. */
  const MAX_RTU_LEN := 256

  const MAX_REGISTERS_PER_READ := 125
  const MAX_COILS_PER_READ := 2000
  const MAX_REGISTERS_PER_WRITE := 123
  const MAX_COILS_PER_WRITE := 1968

  datatype RegisterType = Coil | Discrete | Holding | Input {
    predicate IsRegisterBank() {
      Input? || Holding?
    }

    predicate IsWritable() {
      Holding? || Coil?
    }

    function MaxPerRead(): nat {
      if IsRegisterBank() then MAX_REGISTERS_PER_READ else MAX_COILS_PER_READ
    }

    /** How many one request may write; a read-only bank has no answer. */
    function MaxPerWrite(): Option<nat> {
      match this
      case Holding => Some(MAX_REGISTERS_PER_WRITE)
      case Coil => Some(MAX_COILS_PER_WRITE)
      case _ => None
    }

    /** Registers take two bytes each; coils pack eight to a byte. */
    function DataBytes(quantity: nat): nat {
      if IsRegisterBank() then quantity * 2 else (quantity + 7) / 8
    }

    /** The traditional 1-based address prefix of the bank. */
    function BaseOnePrefix(): nat {
      match this
      case Coil => 1
      case Discrete => 10001
      case Input => 30001
      case Holding => 40001
    }
  }

  /** The high bit is masked first, so an exception resolves to the bank its request asked for. */
  function FromFunctionCode(function_: Byte): Option<RegisterType> {
    var code := function_ & 0x7F;
    if code == 0x01 || code == 0x05 || code == 0x0F then Some(Coil)
    else if code == 0x02 then Some(Discrete)
    else if code == 0x03 || code == 0x06 || code == 0x10 then Some(Holding)
    else if code == 0x04 then Some(Input)
    else None
  }
}
