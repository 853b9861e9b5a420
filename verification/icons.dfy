/** `getIconForType` (static/js/main.js:139-147): the Bootstrap icon shown beside a
    message of a given kind. The table is an object literal, so a lookup also sees
    the properties every object inherits. */
module Icons {

  const Success := "check-circle-fill"
  const Warning := "exclamation-triangle-fill"
  const Info := "info-circle-fill"

  /** The keys of the object literal and their icons. */
  function OwnIcon(kind: string): (icon: string)
    requires kind in {"success", "danger", "warning", "info"}
  {
    if kind == "success" then Success
    else if kind == "info" then Info
    else Warning
  }

  predicate IsOwnKey(kind: string) {
    kind in {"success", "danger", "warning", "info"}
  }

  /** The names every object literal inherits from `Object.prototype`; each holds a
      function, or for `__proto__` the prototype object itself, and all are truthy. */
  predicate IsInheritedName(kind: string) {
    kind in {"constructor", "hasOwnProperty", "isPrototypeOf", "propertyIsEnumerable",
             "toLocaleString", "toString", "valueOf", "__proto__",
             "__defineGetter__", "__defineSetter__", "__lookupGetter__", "__lookupSetter__"}
  }

  /** What `icons[type] || 'info-circle-fill'` evaluates to: an icon name, or an
      inherited member that is not one. */
  datatype Lookup = Icon(name: string) | InheritedMember(property: string)

  /** The function as written. */
  function GetIconForTypeAsWritten(kind: string): Lookup {
    if IsOwnKey(kind) then Icon(OwnIcon(kind))
    else if IsInheritedName(kind) then InheritedMember(kind)
    else Icon(Info)
  }

  /** The lookup restricted to the table's own keys, as the fallback intends: always
      one of the three icons, and the information icon for any kind not listed. */
  function GetIconForType(kind: string): (icon: string)
    ensures icon in {Success, Warning, Info}
    ensures !IsOwnKey(kind) ==> icon == Info
    ensures kind == "success" <==> icon == Success
    ensures kind == "danger" || kind == "warning" <==> icon == Warning
  {
    if IsOwnKey(kind) then OwnIcon(kind) else Info
  }

  /** The two agree on every kind that is not an inherited member name. */
  lemma AsWrittenAgreesOffPrototype(kind: string)
    requires !IsInheritedName(kind)
    ensures GetIconForTypeAsWritten(kind) == Icon(GetIconForType(kind))
  {
  }

  /** On every inherited member name the two differ: the lookup as written yields the
      inherited member where the intended one falls back to the information icon. */
  lemma AsWrittenDiffersOnPrototype(kind: string)
    requires IsInheritedName(kind)
    ensures GetIconForTypeAsWritten(kind) != Icon(GetIconForType(kind))
    ensures GetIconForType(kind) == Info
  {
  }

  /** The kind "toString" is neither a key of the table nor answered with the default
      icon: the lookup finds `Object.prototype.toString`, a truthy function, and
      returns it. */
  lemma ToStringIsNotAnIcon()
    ensures !IsOwnKey("toString")
    ensures GetIconForTypeAsWritten("toString") != Icon(Info)
    ensures GetIconForType("toString") == Info
  {
  }
}
