/** The layering rule of scripts/architecture_check.py: which import a package may not have. */
module Layers {
  import opened Text

  const MODULE := "github.com/aatuh/evydence"

  const CONTEXTS: set<string> := {
    "identity", "release", "evidence", "risk", "package", "verification", "operations", "integration",
    "experimental"
  }

  const OUTWARD_LIBRARIES: seq<string> := [
    "net/http", "database/sql", "github.com/jackc/pgx", "github.com/minio/minio-go",
    "github.com/aws/aws-sdk-go", "github.com/aws/aws-sdk-go-v2", "github.com/Azure/azure-sdk-for-go",
    "cloud.google.com/go", "github.com/aatuh/api-toolkit"
  ]

  predicate Within(value: string, prefix: string) {
    value == prefix || StartsWith(value, prefix + "/")
  }

  function Local(package: string): string {
    RemovePrefix(package, MODULE + "/")
  }

  /** A role and, for the three context roles, the bounded context; `NoRole` is the empty role. */
  datatype Layer =
    | NoRole
    | Context(role: string, context: string)
    | Application
    | LegacyApplication
    | CompatibilityDomain

  function LayerOf(package: string): Layer {
    var name := Local(package);
    var parts := Split(name, '/');
    if |parts| >= 3 && parts[0] == "internal" && parts[1] in CONTEXTS && parts[2] in {"domain", "app", "query"} then
      Context(parts[2], parts[1])
    else if Within(name, "internal/application") || Within(name, "internal/authz") then Application
    else if Within(name, "internal/app") then LegacyApplication
    else if Within(name, "internal/domain") then CompatibilityDomain
    else NoRole
  }

  lemma InsideParts(s: string, x: string, y: string, z: string, folder: string)
    requires '/' !in x && '/' !in y && '/' !in z && folder == x + "/" + (y + "/" + z)
    requires Within(s, folder)
    ensures [x, y, z] <= Split(s, '/')
  {
    if s == folder {
      SplitThree(x, y, z);
    } else {
      var tail := s[|folder| + 1..];
      SplitBeyond(x, y, z, tail);
      assert s == folder + "/" + tail == x + "/" + (y + "/" + (z + "/" + tail));
    }
  }

  lemma PartsInside(s: string, x: string, y: string, z: string, folder: string)
    requires folder == x + "/" + (y + "/" + z) && [x, y, z] <= Split(s, '/')
    ensures Within(s, folder)
  {
    var parts := Split(s, '/');
    JoinSplit(s, '/');
    if |parts| == 3 {
      assert parts == [x, y, z];
      JoinThree(x, y, z);
    } else {
      assert parts == [x, y, z] + parts[3..];
      JoinBeyond(x, y, z, parts[3..]);
      assert s == folder + "/" + Join(parts[3..], "/");
    }
  }

  /** A path lies in three nested folders exactly when its first three components are these. */
  lemma WithinParts(s: string, x: string, y: string, z: string, folder: string)
    requires '/' !in x && '/' !in y && '/' !in z && folder == x + "/" + (y + "/" + z)
    ensures Within(s, folder) <==> [x, y, z] <= Split(s, '/')
  {
    if Within(s, folder) {
      InsideParts(s, x, y, z, folder);
    }
    if [x, y, z] <= Split(s, '/') {
      PartsInside(s, x, y, z, folder);
    }
  }

  lemma ContextsArePlain(context: string)
    requires context in CONTEXTS
    ensures '/' !in context
  {
  }

  lemma ContextByParts(package: string, role: string, context: string)
    ensures LayerOf(package) == Context(role, context) <==>
            && context in CONTEXTS && role in {"domain", "app", "query"}
            && ["internal", context, role] <= Split(Local(package), '/')
  {
    var parts := Split(Local(package), '/');
    if |parts| >= 3 {
      assert ["internal", context, role] <= parts <==>
             parts[0] == "internal" && parts[1] == context && parts[2] == role;
    }
  }

  lemma ContextFolder(role: string, context: string)
    ensures "internal/" + context + "/" + role == "internal" + "/" + (context + "/" + role)
  {
  }

  /** The packages of a context role are those in its folder. */
  lemma ContextExactly(package: string, role: string, context: string)
    ensures LayerOf(package) == Context(role, context) <==>
            && context in CONTEXTS && role in {"domain", "app", "query"}
            && Within(Local(package), "internal/" + context + "/" + role)
  {
    ContextByParts(package, role, context);
    if context in CONTEXTS && role in {"domain", "app", "query"} {
      var folder := "internal/" + context + "/" + role;
      ContextsArePlain(context);
      ContextFolder(role, context);
      WithinParts(Local(package), "internal", context, role, folder);
    }
  }

  predicate IsService(layer: Layer) {
    layer.Context? && layer.role in {"app", "query"}
  }

  predicate ForeignService(from: Layer, to: Layer) {
    IsService(from) && IsService(to) && to.context != from.context
  }

  predicate Outward(package: string) {
    || Within(Local(package), "internal/adapters")
    || Within(Local(package), "internal/platform/wiring")
    || Within(Local(package), "cmd")
    || exists i | 0 <= i < |OUTWARD_LIBRARIES| :: Within(package, OUTWARD_LIBRARIES[i])
  }

  /** The rules, in the order in which they are reported. */
  datatype Rule = OutwardImport | DomainImport | ForeignContext | ExperimentalContext | LegacyImport | SharedImport

  /** An import breaks a rule. */
  predicate Breaks(rule: Rule, package: string, target: string) {
    var from, to := LayerOf(package), LayerOf(target);
    match rule
    // Nothing with a role depends on adapters, wiring, commands or runtime libraries.
    case OutwardImport => !from.NoRole? && Outward(target)
    // The domain of a context depends on no module outside the standard library, and not on C.
    case DomainImport => from.Context? && from.role == "domain" && ('.' in Split(target, '/')[0] || target == "C")
    // A context service depends on no service of another context.
    case ForeignContext => ForeignService(from, to)
    // A production context service depends on nothing experimental.
    case ExperimentalContext =>
      IsService(from) && from.context != "experimental" && to.Context? && to.context == "experimental"
    // A context service depends on the legacy application only through its queries.
    case LegacyImport =>
      IsService(from) && Within(Local(target), "internal/app") && !Within(Local(target), "internal/app/query")
    // Shared domain and application code depends on no context service and not on the legacy application.
    case SharedImport =>
      (from.CompatibilityDomain? || from.Application?) && (IsService(to) || to.LegacyApplication?)
  }

  function Order(rule: Rule): nat {
    match rule
    case OutwardImport => 0
    case DomainImport => 1
    case ForeignContext => 2
    case ExperimentalContext => 3
    case LegacyImport => 4
    case SharedImport => 5
  }

  function Message(rule: Rule): string {
    match rule
    case OutwardImport => "core cannot import adapter/runtime"
    case DomainImport => "context domain must be independent of"
    case ForeignContext => "foreign context service dependency; use a scoped port, read model or event instead of"
    case ExperimentalContext => "production context cannot depend on experimental context"
    case LegacyImport => "context service cannot depend on legacy application"
    case SharedImport => "shared domain/application cannot depend on context or legacy service"
  }

  /** The checks of `dependency_error`, in the order of the source. */
  function FirstBroken(package: string, target: string): Option<Rule> {
    var from, to := LayerOf(package), LayerOf(target);
    if from.NoRole? then None
    else if Outward(target) then Some(OutwardImport)
    else if from.Context? && from.role == "domain" && ('.' in Split(target, '/')[0] || target == "C") then
      Some(DomainImport)
    else if IsService(from) && IsService(to) && to.context != from.context then Some(ForeignContext)
    else if IsService(from) && from.context != "experimental" && to.Context? && to.context == "experimental" then
      Some(ExperimentalContext)
    else if IsService(from) && Within(Local(target), "internal/app")
            && !Within(Local(target), "internal/app/query") then Some(LegacyImport)
    else if (from.CompatibilityDomain? || from.Application?) && (IsService(to) || to.LegacyApplication?) then
      Some(SharedImport)
    else None
  }

  /** The rule named is the first one broken; none is named exactly when none is broken. */
  lemma FirstBrokenExact(package: string, target: string)
    ensures FirstBroken(package, target).None? <==> forall rule :: !Breaks(rule, package, target)
    ensures forall rule :: FirstBroken(package, target) == Some(rule) <==>
              && Breaks(rule, package, target)
              && forall other :: Breaks(other, package, target) ==> Order(rule) <= Order(other)
  {
    var first := FirstBroken(package, target);
    forall rule ensures Breaks(rule, package, target) ==> first.Some? && Order(first.value) <= Order(rule) {
      match rule
      case OutwardImport =>
      case DomainImport =>
      case ForeignContext =>
      case ExperimentalContext =>
      case LegacyImport =>
      case SharedImport =>
    }
    assert first.Some? ==> Breaks(first.value, package, target);
    forall rule, other | Order(rule) == Order(other) ensures rule == other {
    }
  }

  /** `dependency_error`: why `package` may not depend on `target`, or `None`. */
  function DependencyError(package: string, target: string): (r: Option<string>)
    ensures r.None? <==> forall rule :: !Breaks(rule, package, target)
  {
    FirstBrokenExact(package, target);
    var rule := FirstBroken(package, target);
    if rule.None? then None else Some(Message(rule.value))
  }

  predicate Forbidden(package: string, target: string) {
    DependencyError(package, target).Some?
  }
}
