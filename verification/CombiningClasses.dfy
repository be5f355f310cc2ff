// Canonical combining classes: only the nonzero ones are stored.
module CombiningClasses {

  function ClassOf(classes: map<nat, nat>, code: nat): nat {
    if code in classes then classes[code] else 0
  }
}
