/** The result codes of the Wi-Fi device interface. */
module WifiErrors {

  datatype WifiErrorCode =
    | WIFI_SUCCESS
    | ERROR_WIFI_INVALID_ARGS
    | ERROR_WIFI_IFACE_INVALID
    | ERROR_WIFI_BUSY
    | ERROR_WIFI_NOT_AVAILABLE
    | ERROR_WIFI_NOT_STARTED
    | ERROR_WIFI_UNKNOWN
}
