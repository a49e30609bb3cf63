/** The cap on a connection's input buffer and on a single message. */
module ConnLimits {
  /** DYN_ACONN_MAX_REQ */
  const MAX_REQ: nat := 0x10_0000
}
