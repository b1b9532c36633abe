// Return codes of the C interface.

module Status {
  const E_OK := 0
  const E_HEADER_BAD := -1
  const E_OUTPUT_INSUF := -2
  const E_OUTPUT_OVERRUN := -3
  const E_DATA_MALFORMED := -5
}
