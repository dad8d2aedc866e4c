/** format_error_code: a message and an error code meant to fit the inline buffer. */
module ErrorCode {
  import opened RadixDigits
  import opened DigitCount
  import opened DecimalPrinters
  import opened OutputBuffer
  import opened IntegerWriter

  const SEP: string := ": "
  const ERROR: string := "error "

  // The digits counted are those of the code converted to unsigned.
  function ErrorCodeSize(errorCode: int): nat {
    |SEP| + |ERROR| + |Decimal(errorCode % 0x1_0000_0000)|
  }

  // The text for a code: the message is dropped when the estimate says it does not fit.  Both sides of
  // the test are unsigned, and the estimate never exceeds the buffer size.
  function ErrorText(errorCode: int, message: string): string {
    (if |message| <= INLINE_BUFFER_SIZE - ErrorCodeSize(errorCode) then message + SEP else "")
    + ERROR + SignedDecimal(errorCode)
  }

  method FormatErrorCode(out: BasicWriter, errorCode: int, message: string)
    requires out.buffer.Valid() && -0x8000_0000 <= errorCode < 0x8000_0000
    modifies out.buffer, out.buffer.ptr
    ensures out.buffer.Valid() && out.buffer.Contents() == ErrorText(errorCode, message)
  {
    hide InRadix;
    out.buffer.Clear();
    var digits := CountDigits(errorCode % 0x1_0000_0000, 32);
    var errorCodeSize := |SEP| + |ERROR| + digits;
    if |message| <= INLINE_BUFFER_SIZE - errorCodeSize {
      out.buffer.Append(message);
      out.buffer.Append(SEP);
      assert out.buffer.Contents() == message + SEP;
    }
    out.buffer.Append(ERROR);
    out.Put(errorCode, 32);
  }

  // What the text says.
  lemma ErrorTextSays(errorCode: int, message: string)
    requires -0x8000_0000 <= errorCode < 0x8000_0000
    ensures |message| <= 482 ==> ErrorText(errorCode, message) == message + ": error " + SignedDecimal(errorCode)
    ensures |message| > 491 ==> ErrorText(errorCode, message) == "error " + SignedDecimal(errorCode)
  {
    CodeDigits(errorCode);
    hide Decimal;
    var code := SignedDecimal(errorCode);
    assert message + SEP + ERROR + code == message + ": error " + code && "" + ERROR + code == "error " + code;
  }

  lemma CodeDigits(errorCode: int)
    requires -0x8000_0000 <= errorCode < 0x8000_0000
    ensures errorCode < 0 ==> |Decimal(errorCode % 0x1_0000_0000)| == 10
    ensures errorCode <= -1000000000 ==> |Decimal(-errorCode)| == 10
    ensures -1000000000 < errorCode < 0 ==> |Decimal(-errorCode)| <= 9
    ensures errorCode >= 0 ==> errorCode % 0x1_0000_0000 == errorCode && |Decimal(errorCode)| <= 10
  {
    hide InRadix, Power;
    TenDigits();
    if errorCode < 0 {
      var unsigned := errorCode + 0x1_0000_0000;
      assert errorCode % 0x1_0000_0000 == unsigned;
      LengthByPowers(unsigned, 10, false, 10);
      if errorCode <= -1000000000 {
        LengthByPowers(-errorCode, 10, false, 10);
      } else {
        DigitsWithin(-errorCode, 9);
      }
    } else {
      assert errorCode % 0x1_0000_0000 == errorCode;
      DigitsWithin(errorCode, 10);
    }
  }

  // The text fits the inline buffer except in one case: a code of ten digits and a sign, whose unsigned
  // conversion has ten digits and none, with a message of exactly the length still let through.
  lemma TextFitsExactly(errorCode: int, message: string)
    requires -0x8000_0000 <= errorCode < 0x8000_0000
    ensures |ErrorText(errorCode, message)| <= INLINE_BUFFER_SIZE
       <==> !(errorCode <= -1000000000 && |message| == 482)
  {
    CodeDigits(errorCode);
    hide Decimal;
  }

  // One of them: 501 characters for an inline buffer of 500.
  lemma TextTooLong(message: string)
    requires |message| == 482
    ensures |ErrorText(-1000000000, message)| == 501
  {
    CodeDigits(-1000000000);
    hide Decimal;
  }

  lemma TenDigits()
    ensures Power(10, 9) == 1000000000 && Power(10, 10) == 10000000000
  {
    TableIsPowers(9);
    TableIsPowers(10);
  }
}
