/** The upload-size check attached to ProductImage.image. */
module Validators {
  import opened Wrappers

  const MaxSizeKb: nat := 500
  /** The limit in bytes: 500 KiB. */
  const MaxSizeBytes: nat := MaxSizeKb * 1024

  /** An uploaded file: its name, its size in bytes and its content. */
  datatype UploadedFile = UploadedFile(name: string, size: nat, content: seq<bv8>)

  /** The validation error raised for an oversized file, naming the limit in kilobytes. */
  datatype FileSizeError = FileTooLarge(limitKb: nat)

  /** Rejects a file larger than 512000 bytes; a file of exactly 512000 bytes passes. */
  function ValidateFileSize(file: UploadedFile): (r: Outcome<FileSizeError>)
    ensures r == Pass <==> file.size <= 512000
    ensures r != Pass ==> r == Fail(FileTooLarge(500))
  {
    if file.size > MaxSizeBytes then Fail(FileTooLarge(MaxSizeKb)) else Pass
  }

  /** The verdict depends on the size alone: name and content play no part. */
  lemma ValidateFileSizeIgnoresContent(f: UploadedFile, g: UploadedFile)
    requires f.size == g.size
    ensures ValidateFileSize(f) == ValidateFileSize(g)
  {
  }
}
