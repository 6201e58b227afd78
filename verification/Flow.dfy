/** FLOW_UPDATE metadata and its routing rules. */
module Flow {
  import opened Wire
  import opened Bits
  import opened Header

  datatype FlowScope = ConnectionScope | SessionScope | OperationScope

  datatype FlowUpdate = FlowUpdate(
    scope: FlowScope, updateReason: byte, backpressure: byte, connectionCredit: u16, sessionCredit: u16,
    operationCredit: u16, operationId: u64, retryAfterMs: u32, creditEpoch: u32, flowFlags: u32)

  const RETRY_AFTER_VALID_BIT := 1

  /** The fields a FLOW_UPDATE of a given scope may carry. */
  function ValidateRouting(header: CommonHeader, m: FlowUpdate): Result<(), NnrpError> {
    if header.messageType != FLOW_UPDATE then
      Err(InvalidProtocolCombination(NotFlowUpdate))
    else if m.scope.ConnectionScope?
      && (header.sessionId != 0 || m.sessionCredit != 0 || m.operationCredit != 0 || m.operationId != 0) then
      Err(InvalidProtocolCombination(ConnectionFlowFields))
    else if m.scope.SessionScope?
      && (header.sessionId == 0 || m.connectionCredit != 0 || m.operationCredit != 0 || m.operationId != 0) then
      Err(InvalidProtocolCombination(SessionFlowFields))
    else if m.scope.OperationScope? && (header.sessionId == 0 || m.operationId == 0) then
      Err(InvalidProtocolCombination(OperationFlowFields))
    else if m.retryAfterMs != 0 && !Bit(m.flowFlags, RETRY_AFTER_VALID_BIT) then
      Err(InvalidProtocolCombination(RetryAfterFlag))
    else
      Ok(())
  }
}
