/** `src/utils/imageLimits.js`: the upload validator and its constants. */
module ImageLimits {
  import opened Wrappers
  import opened Numerals

  const MaxFileSizeMB: nat := 10
  const SupportedFormats: seq<string> := ["image/jpeg", "image/png", "image/webp"]

  /** The two properties of a browser `File` the validator reads. */
  datatype File = File(mimeType: string, size: nat)

  const NoFileMessage := "No file selected."
  const FormatMessage := "Unsupported format. Use JPG, PNG, or WebP."
  /** The template `File too large. Limit is ${MAX_FILE_SIZE_MB}MB.` filled in. */
  const SizeMessage := "File too large. Limit is " + DecimalString(MaxFileSizeMB) + "MB."

  /** The size limit in bytes, 10 MiB. */
  function MaxBytes(): nat {
    MaxFileSizeMB * 1024 * 1024
  }

  /** `validateFile`: `None` (the source's `null`) for an acceptable file, otherwise the
      message of the first check that fails, checking presence, then type, then size. */
  function ValidateFile(file: Option<File>): (message: Option<string>)
    ensures file.None? ==> message == Some(NoFileMessage)
    ensures file.Some? && file.value.mimeType !in SupportedFormats ==>
              message == Some(FormatMessage)
    ensures (file.Some? && file.value.mimeType in SupportedFormats
               && file.value.size > 10 * 1024 * 1024) ==> message == Some(SizeMessage)
    ensures message.None? <==>
              file.Some? && file.value.mimeType in SupportedFormats
              && file.value.size <= 10 * 1024 * 1024
  {
    if file.None? then Some(NoFileMessage)
    else if file.value.mimeType !in SupportedFormats then Some(FormatMessage)
    else if file.value.size > MaxBytes() then Some(SizeMessage)
    else None
  }

  /** The three messages are distinct, so a caller can tell which check failed. */
  lemma MessagesDistinct()
    ensures NoFileMessage != FormatMessage && FormatMessage != SizeMessage
    ensures NoFileMessage != SizeMessage
  {
    assert NoFileMessage[0] != FormatMessage[0];
    assert FormatMessage[0] != SizeMessage[0];
    assert NoFileMessage[0] != SizeMessage[0];
  }

  /** The size message, filled in, names the 10 MB limit. */
  lemma SizeMessageNamesLimit()
    ensures SizeMessage == "File too large. Limit is 10MB."
  {
    assert DecimalString(10) == DecimalString(1) + [DigitChar(0)];
  }

  /** A supported type is exactly one of JPEG, PNG and WebP; the type is checked before the
      size, so an unsupported file of any size gets the format message. */
  lemma FormatCheckedBeforeSize(mimeType: string, size: nat)
    ensures mimeType in SupportedFormats <==>
              mimeType == "image/jpeg" || mimeType == "image/png" || mimeType == "image/webp"
    ensures mimeType !in SupportedFormats ==>
              ValidateFile(Some(File(mimeType, size))) == Some(FormatMessage)
  {
  }

  /** The limit is inclusive: exactly 10 MiB passes and one byte more does not. */
  lemma LimitIsInclusive(mimeType: string)
    requires mimeType in SupportedFormats
    ensures ValidateFile(Some(File(mimeType, 10485760))).None?
    ensures ValidateFile(Some(File(mimeType, 10485761))) == Some(SizeMessage)
  {
  }
}
