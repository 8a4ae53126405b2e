/** APCI service codes and the access policy for management services. */
module Apci {
  type Service = bv16

  const GROUP_VALUE_READ: Service := 0x000
  const GROUP_VALUE_RESPONSE: Service := 0x040
  const GROUP_VALUE_WRITE: Service := 0x080
  const INDIVIDUAL_ADDRESS_WRITE: Service := 0x0C0
  const ADC_READ: Service := 0x180
  const ADC_RESPONSE: Service := 0x1C0
  const SYSTEM_NETWORK_PARAMETER_READ: Service := 0x1C8
  const SYSTEM_NETWORK_PARAMETER_WRITE: Service := 0x1CA
  const PROPERTY_EXT_VALUE_READ: Service := 0x1CC
  const PROPERTY_EXT_VALUE_WRITE_CON: Service := 0x1CE
  const PROPERTY_EXT_VALUE_WRITE_UNCON: Service := 0x1D0
  const FUNCTION_PROPERTY_EXT_COMMAND: Service := 0x1D4
  const FUNCTION_PROPERTY_EXT_STATE_RESPONSE: Service := 0x1D6
  const MEMORY_EXTENDED_WRITE: Service := 0x1FB
  const MEMORY_EXTENDED_READ_RESPONSE: Service := 0x1FE
  const MEMORY_READ: Service := 0x200
  const MEMORY_RESPONSE: Service := 0x240
  const MEMORY_WRITE: Service := 0x280
  const FUNCTION_PROPERTY_COMMAND: Service := 0x2C7
  const FUNCTION_PROPERTY_STATE_RESPONSE: Service := 0x2C9
  const DEVICE_DESCRIPTOR_READ: Service := 0x300
  const DEVICE_DESCRIPTOR_RESPONSE: Service := 0x340
  const RESTART: Service := 0x380
  const RESTART_RESPONSE: Service := 0x3A1
  const ESCAPE: Service := 0x3C0
  const AUTHORIZE_REQUEST: Service := 0x3D1
  const KEY_WRITE: Service := 0x3D3
  const PROPERTY_VALUE_WRITE: Service := 0x3D7
  const INDIVIDUAL_ADDRESS_SERIAL_NUMBER_WRITE: Service := 0x3DE
  const NETWORK_PARAMETER_WRITE: Service := 0x3E4

  /** How a request was protected on its way here. */
  datatype Security = Security(secured: bool, toolAccess: bool, confidentiality: bool)

  predicate ToolSecured(s: Security) { s.secured && s.toolAccess && s.confidentiality }

  predicate IsManagementWrite(service: Service) {
    || service == PROPERTY_VALUE_WRITE
    || service == PROPERTY_EXT_VALUE_WRITE_CON
    || service == PROPERTY_EXT_VALUE_WRITE_UNCON
    || service == FUNCTION_PROPERTY_COMMAND
    || service == FUNCTION_PROPERTY_EXT_COMMAND
    || service == MEMORY_WRITE
    || service == MEMORY_EXTENDED_WRITE
    || service == INDIVIDUAL_ADDRESS_WRITE
    || service == INDIVIDUAL_ADDRESS_SERIAL_NUMBER_WRITE
    || service == NETWORK_PARAMETER_WRITE
    || service == SYSTEM_NETWORK_PARAMETER_WRITE
    || service == AUTHORIZE_REQUEST
    || service == KEY_WRITE
    || service == RESTART
  }

  predicate ManagementWritePermitted(service: Service, securityMode: bool, s: Security) {
    !IsManagementWrite(service) || !securityMode || ToolSecured(s)
  }
}
