/** Popup identifiers, their window names, and how a window asks to be placed. */
module Popups {

  datatype PopupId =
    | Volume | PhoneModes | Brightness | Tethering | TetheringPhoneModeChangeProhibited
    | BluetoothAuthenticate | BluetoothInfo
    | PhoneLock | PhoneLockInput | PhoneLockInfo | PhoneLockChangeInfo
    | SimLock | SimInfo | SimNotReady | SimSwitching
    | AlarmActivated | AlarmDeactivated | Alarm
    | PowerOff | Reboot | BedtimeNotification | ChargingNotification | ChargingDoneNotification
    | AppTestPopup | Invalid

  const MAIN_WINDOW: string := "MainWindow"
  const PHONE_LOCK_WINDOW: string := "PhoneLockPopup"

  function ResolveWindowName(id: PopupId): string {
    match id
    case Volume => "VolumePopup"
    case PhoneModes => "PhoneModesPopup"
    case Brightness => "BrightnessPopup"
    case Tethering => "TetheringConfirmationPopup"
    case TetheringPhoneModeChangeProhibited => "TetheringPhoneModeChangeProhibitedPopup"
    case BluetoothAuthenticate => "BluetoothAuthenticatePopup"
    case BluetoothInfo => "BluetoothInfoPopup"
    case PhoneLock => PHONE_LOCK_WINDOW
    case PhoneLockInput => "PhoneLockInputPopup"
    case PhoneLockInfo => "PhoneLockInfoPopup"
    case PhoneLockChangeInfo => "PhoneLockChangeInfoPopup"
    case SimLock => "SimUnlockPopup"
    case SimInfo => "SimInfoPopup"
    case SimNotReady => "SimNotReadyPopup"
    case SimSwitching => "SimSwitchingPopup"
    case AlarmActivated => "AlarmActivatedPopup"
    case AlarmDeactivated => "AlarmDeactivatedPopup"
    case Alarm => "AlarmPopup"
    case PowerOff => "PowerOffPopup"
    case Reboot => "RebootPopup"
    case BedtimeNotification => "BedtimeNotificationPopup"
    case ChargingNotification => "ChargingNotificationPopup"
    case ChargingDoneNotification => "ChargingDoneNotificationPopup"
    case AppTestPopup => "test_popup"
    case Invalid => MAIN_WINDOW
  }

  /** From lowest to highest. */
  datatype Priority = Low | Normal | High | Highest
  {
    function Rank(): nat {
      match this
      case Low => 0
      case Normal => 1
      case High => 2
      case Highest => 3
    }
  }

  datatype WindowType = NormalWindow | PopupWindow

  datatype Disposition = Disposition(priority: Priority, windowType: WindowType, id: PopupId)

  const WINDOW_DISPOSITION: Disposition := Disposition(Normal, NormalWindow, Invalid)

  /** What a popup is requested with. */
  datatype PopupParams = PopupParams(popupId: PopupId, disposition: Disposition)
}
