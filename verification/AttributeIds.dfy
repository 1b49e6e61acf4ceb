/** Attribute ids and their labels. */
module AttributeIds {
  const CMD := 0
  const FILENAME := 2
  const PID := 5
  const DEVICE := 6
  const INODE := 8
  const PROCGID := 10
  const PPID := 15
  const LOGINNAME := 20
  const UID := 25
  const UGID_NAME := 30
  const UGID := 35
  const FILEMODE := 39
  const PSTATE := 40
  const FLAGS := 41
  const PERMS := 42
  const PSTART_TIME := 45
  const ACCESS_T := 46
  const MOD_T := 47
  const STAT_CHANGE_T := 48
  const PCPU_TIME := 50
  const FILESIZE := 57
  const PVMS := 60
  const PRSS := 65
  const TEXT_REGION := 70
  const DATA_REGION := 75
  const STACK_REGION := 80
  const EPI := 90
  const FD := 105
}
