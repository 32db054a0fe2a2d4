/** Constants every client shares. */
module Protocol {
  import opened Text

  const PROTOCOL_VERSION := 2
  const KDF_ALGORITHM := Ascii("PBKDF2-SHA-256")
  const ENCRYPTION_ALGORITHM := Ascii("AES-256-GCM")
  const WRAPPING_ALGORITHM := Ascii("AES-KW")
  const KDF_ITERATIONS_MIN := 600_000
  const KDF_ITERATIONS_MAX := 2_000_000
  const KDF_SALT_LEN := 16
  const IV_LEN := 12
  const TAG_LEN := 16
  const CONTENT_KEY_LEN := 32
  const WRAPPED_KEY_LEN := 40
  const MAX_OUTER_HEADER_BYTES := 1024
  const MAX_FILES_CEILING := 256
  const MAX_MANIFEST_BYTES_CEILING := 256 * 1024
  const MAX_NAME_BYTES := 255
  const MAX_MIME_TYPE_BYTES := 255
  /** The largest integer JavaScript holds exactly. */
  const MAX_SAFE_INTEGER := 0x1F_FFFF_FFFF_FFFF
  const U64_LIMIT := 0x1_0000_0000_0000_0000
}
